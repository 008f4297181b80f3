/** What an EBNF grammar means, how compiled rules represent it, and why the two languages are the same. */
module GrammarMeaning {
  import opened GrammarLanguage
  import Src = GrammarSource

  // ---------------------------------------------------------------- The meaning of EBNF

  predicate RangeContains(r: Src.Range, c: nat) {
    if r.single then c == r.lo else r.lo <= c <= r.hi
  }

  ghost predicate InRanges(rs: seq<Src.Range>, c: nat) {
    exists i | 0 <= i < |rs| :: RangeContains(rs[i], c)
  }

  /** Names a rule of the grammar; the last definition of a name counts. */
  predicate Defines(g: seq<Src.RuleDef>, name: string) {
    exists i | 0 <= i < |g| :: g[i].name == name
  }

  function Body(g: seq<Src.RuleDef>, name: string): Src.Alternates
    requires Defines(g, name)
  {
    if g[|g| - 1].name == name then g[|g| - 1].alts else Body(g[..|g| - 1], name)
  }

  ghost function Flatten(ws: seq<Word>): Word {
    if ws == [] then [] else ws[0] + Flatten(ws[1..])
  }

  predicate CountOk(op: Src.Op, k: nat) {
    match op
    case Star => true
    case Plus => k >= 1
    case Opt => k <= 1
  }

  /** `w` is meant by `x`, looking through named rules at most `n` deep. */
  ghost predicate ItemMeans(g: seq<Src.RuleDef>, x: Src.Item, w: Word, n: nat)
    decreases n, x
  {
    match x
    case Literal(cs) => w == cs
    case Class(neg, rs) => |w| == 1 && InRanges(rs, w[0]) != neg
    case Ref(name) => n > 0 && Defines(g, name) && AlternatesMean(g, Body(g, name), w, n - 1)
    case Group(a) => AlternatesMean(g, a, w, n)
    case Repeat(y, op) =>
      exists ws: seq<Word> :: CountOk(op, |ws|) && Flatten(ws) == w &&
        forall i | 0 <= i < |ws| :: ItemMeans(g, y, ws[i], n)
  }

  ghost predicate SequenceMeans(g: seq<Src.RuleDef>, s: Src.Sequence, w: Word, n: nat)
    decreases n, s
  {
    match s
    case Empty => w == []
    case Snoc(i, x) => exists k | 0 <= k <= |w| :: SequenceMeans(g, i, w[..k], n) && ItemMeans(g, x, w[k..], n)
  }

  ghost predicate AlternatesMean(g: seq<Src.RuleDef>, a: Src.Alternates, w: Word, n: nat)
    decreases n, a
  {
    match a
    case One(s) => SequenceMeans(g, s, w, n)
    case More(f, s) => AlternatesMean(g, f, w, n) || SequenceMeans(g, s, w, n)
  }

  /** The language of a named rule. */
  ghost predicate Means(g: seq<Src.RuleDef>, name: string, w: Word) {
    Defines(g, name) && exists n: nat :: AlternatesMean(g, Body(g, name), w, n)
  }

  lemma {:induction false} ItemMeansMonotone(g: seq<Src.RuleDef>, x: Src.Item, w: Word, n: nat, m: nat)
    requires ItemMeans(g, x, w, n) && n <= m
    ensures ItemMeans(g, x, w, m)
    decreases n, x
  {
    match x
    case Ref(name) => AlternatesMeanMonotone(g, Body(g, name), w, n - 1, m - 1);
    case Group(a) => AlternatesMeanMonotone(g, a, w, n, m);
    case Repeat(y, op) =>
      var ws: seq<Word> :| CountOk(op, |ws|) && Flatten(ws) == w &&
        forall i | 0 <= i < |ws| :: ItemMeans(g, y, ws[i], n);
      forall i | 0 <= i < |ws|
        ensures ItemMeans(g, y, ws[i], m)
      {
        ItemMeansMonotone(g, y, ws[i], n, m);
      }
    case _ =>
  }

  lemma {:induction false} SequenceMeansMonotone(g: seq<Src.RuleDef>, s: Src.Sequence, w: Word, n: nat, m: nat)
    requires SequenceMeans(g, s, w, n) && n <= m
    ensures SequenceMeans(g, s, w, m)
    decreases n, s
  {
    if s.Snoc? {
      var k :| 0 <= k <= |w| && SequenceMeans(g, s.init, w[..k], n) && ItemMeans(g, s.last, w[k..], n);
      SequenceMeansMonotone(g, s.init, w[..k], n, m);
      ItemMeansMonotone(g, s.last, w[k..], n, m);
    }
  }

  lemma {:induction false} AlternatesMeanMonotone(g: seq<Src.RuleDef>, a: Src.Alternates, w: Word, n: nat, m: nat)
    requires AlternatesMean(g, a, w, n) && n <= m
    ensures AlternatesMean(g, a, w, m)
    decreases n, a
  {
    match a
    case One(s) => SequenceMeansMonotone(g, s, w, n, m);
    case More(f, s) =>
      if AlternatesMean(g, f, w, n) {
        AlternatesMeanMonotone(g, f, w, n, m);
      } else {
        SequenceMeansMonotone(g, s, w, n, m);
      }
  }

  // ---------------------------------------------------------------- Representation by rules

  /** The emitted rules, the symbol table, and the rules synthesised so far, each with the item that it stands for. */
  datatype Emitted = Emitted(rules: Rules, ids: map<string, nat>, synthesised: map<nat, Src.Item>)

  /** The rule `r` has been synthesised for the item. */
  predicate StandsFor(c: Emitted, r: nat, x: Src.Item) {
    r in c.synthesised && c.synthesised[r] == x
  }

  function RuleAt(rules: Rules, r: nat): Rule {
    if r < |rules| then rules[r] else []
  }

  const END := Element(End, 0)
  const ALT := Element(Alt, 0)

  function CharElements(cs: seq<nat>): seq<Element> {
    if cs == [] then [] else [Element(Char, cs[0])] + CharElements(cs[1..])
  }

  function RangeElements(k: Kind, r: Src.Range): seq<Element> {
    [Element(k, r.lo)] + if r.single then [] else [Element(CharRngUpper, r.hi)]
  }

  function ClassElements(k: Kind, rs: seq<Src.Range>): seq<Element>
    decreases rs
  {
    if rs == [] then [] else RangeElements(k, rs[0]) + ClassElements(CharAlt, rs[1..])
  }

  function ClassKind(negated: bool): Kind {
    if negated then CharNot else Char
  }

  /** S* becomes S' ::= S S' |, S+ becomes S' ::= S S' | S, and S? becomes S' ::= S |. */
  function RepeatRule(body: seq<Element>, op: Src.Op, v: nat): Rule {
    body + (if op.Opt? then [] else [Element(RuleRef, v)]) + [ALT] + (if op.Plus? then body else []) + [END]
  }

  ghost predicate IsItem(c: Emitted, e: seq<Element>, x: Src.Item)
    decreases x
  {
    match x
    case Literal(cs) => e == CharElements(cs)
    case Class(neg, rs) => e == ClassElements(ClassKind(neg), rs)
    case Ref(name) => name in c.ids && e == [Element(RuleRef, c.ids[name])]
    case Group(a) =>
      && |e| == 1 && e == [Element(RuleRef, e[0].value)] && StandsFor(c, e[0].value, x)
      && IsRule(c, RuleAt(c.rules, e[0].value), a)
    case Repeat(y, op) =>
      && |e| == 1 && e == [Element(RuleRef, e[0].value)] && StandsFor(c, e[0].value, x)
      && exists body :: IsItem(c, body, y) && RuleAt(c.rules, e[0].value) == RepeatRule(body, op, e[0].value)
  }

  ghost predicate IsSequence(c: Emitted, e: seq<Element>, s: Src.Sequence)
    decreases s
  {
    match s
    case Empty => e == []
    case Snoc(i, x) => exists k | 0 <= k <= |e| :: IsSequence(c, e[..k], i) && IsItem(c, e[k..], x)
  }

  ghost predicate IsAlternates(c: Emitted, e: seq<Element>, a: Src.Alternates)
    decreases a, 0
  {
    match a
    case One(s) => IsSequence(c, e, s)
    case More(f, s) =>
      exists k | 0 <= k < |e| :: e[k] == ALT && IsAlternates(c, e[..k], f) && IsSequence(c, e[k + 1..], s)
  }

  ghost predicate IsRule(c: Emitted, rule: Rule, a: Src.Alternates)
    decreases a, 1
  {
    |rule| > 0 && rule[|rule| - 1] == END && IsAlternates(c, rule[..|rule| - 1], a)
  }

  /** The rules represent the grammar: each name its last definition, and nothing for undefined names. */
  ghost predicate Implements(c: Emitted, g: seq<Src.RuleDef>) {
    && (forall name | Defines(g, name) :: name in c.ids && IsRule(c, RuleAt(c.rules, c.ids[name]), Body(g, name)))
    && (forall name | name in c.ids && IsWordName(name) && !Defines(g, name) :: RuleAt(c.rules, c.ids[name]) == [])
  }

  /** A name as it can be written in a grammar. */
  predicate IsWordName(name: string) {
    forall i | 0 <= i < |name| :: name[i] != '_'
  }

  // ---------------------------------------------------------------- Later rules do not disturb earlier ones

  ghost predicate Extends(d: Emitted, c: Emitted) {
    && (forall r | r in c.synthesised :: StandsFor(d, r, c.synthesised[r]) && RuleAt(d.rules, r) == RuleAt(c.rules, r))
    && (forall name | name in c.ids :: name in d.ids && d.ids[name] == c.ids[name])
  }

  lemma {:induction false} IsItemExtends(c: Emitted, d: Emitted, e: seq<Element>, x: Src.Item)
    requires IsItem(c, e, x) && Extends(d, c)
    ensures IsItem(d, e, x)
    decreases x, 0
  {
    match x
    case Group(a) => IsRuleExtends(c, d, RuleAt(c.rules, e[0].value), a);
    case Repeat(y, op) =>
      var body :| IsItem(c, body, y) && RuleAt(c.rules, e[0].value) == RepeatRule(body, op, e[0].value);
      IsItemExtends(c, d, body, y);
    case _ =>
  }

  lemma {:induction false} IsSequenceExtends(c: Emitted, d: Emitted, e: seq<Element>, s: Src.Sequence)
    requires IsSequence(c, e, s) && Extends(d, c)
    ensures IsSequence(d, e, s)
    decreases s, 0
  {
    if s.Snoc? {
      var k :| 0 <= k <= |e| && IsSequence(c, e[..k], s.init) && IsItem(c, e[k..], s.last);
      IsSequenceExtends(c, d, e[..k], s.init);
      IsItemExtends(c, d, e[k..], s.last);
    }
  }

  lemma {:induction false} IsAlternatesExtends(c: Emitted, d: Emitted, e: seq<Element>, a: Src.Alternates)
    requires IsAlternates(c, e, a) && Extends(d, c)
    ensures IsAlternates(d, e, a)
    decreases a, 0
  {
    match a
    case One(s) => IsSequenceExtends(c, d, e, s);
    case More(f, s) =>
      var k :| 0 <= k < |e| && e[k] == ALT && IsAlternates(c, e[..k], f) && IsSequence(c, e[k + 1..], s);
      IsAlternatesExtends(c, d, e[..k], f);
      IsSequenceExtends(c, d, e[k + 1..], s);
  }

  lemma {:induction false} IsRuleExtends(c: Emitted, d: Emitted, rule: Rule, a: Src.Alternates)
    requires IsRule(c, rule, a) && Extends(d, c)
    ensures IsRule(d, rule, a)
    decreases a, 1
  {
    IsAlternatesExtends(c, d, rule[..|rule| - 1], a);
  }

  // ---------------------------------------------------------------- Deriving from concatenations

  /** No alternate ends inside `e`, and `e` does not start in the middle of a class. */
  predicate Clean(e: seq<Element>) {
    NoEnd(e) && HeadOk(e)
  }

  predicate HeadOk(e: seq<Element>) {
    |e| > 0 ==> !e[0].kind.CharAlt? && !e[0].kind.CharRngUpper?
  }

  lemma {:induction false} ClassOfConcat(x: seq<Element>, y: seq<Element>, c: nat)
    requires |x| > 0 && HeadOk(y)
    ensures ClassLen(x + y) == ClassLen(x) && ClassHas(x + y, c) == ClassHas(x, c)
    ensures (x + y)[ClassLen(x)..] == x[ClassLen(x)..] + y
    decreases |x|
  {
    var z := x + y;
    if |x| > 1 { assert z[1] == x[1]; }
    if |x| == 1 && |y| > 0 { assert z[1] == y[0]; }
    var k := RangeLen(x);
    assert RangeLen(z) == k;
    if k < |x| {
      assert z[k] == x[k] && z[k..] == x[k..] + y;
      if MoreRanges(x) {
        ClassOfConcat(x[k..], y, c);
      }
    } else if |y| > 0 {
      assert z[k] == y[0];
    }
  }

  lemma SplitReference(rules: Rules, s: seq<Element>, w: Word, n: nat) returns (a: nat, p: Word, q: Word)
    requires |s| > 0 && s[0].kind.RuleRef? && Gen(rules, s, w, n)
    ensures n > 0 && s[0].value < |rules| && IsAltStart(rules[s[0].value], a) && w == p + q
    ensures Gen(rules, rules[s[0].value][a..], p, n - 1) && Gen(rules, s[1..], q, n)
  {
    hide Gen;
    var k;
    a, k := GenSteps(rules, s, w, n);
    p, q := w[..k], w[k..];
  }

  lemma JoinReference(rules: Rules, s: seq<Element>, n: nat, a: nat, p: Word, q: Word)
    requires |s| > 0 && s[0].kind.RuleRef? && n > 0 && s[0].value < |rules| && IsAltStart(rules[s[0].value], a)
    requires Gen(rules, rules[s[0].value][a..], p, n - 1) && Gen(rules, s[1..], q, n)
    ensures Gen(rules, s, p + q, n)
  {
    hide Gen;
    var w := p + q;
    assert w[..|p|] == p && w[|p|..] == q;
    GenOfSteps(rules, s, w, n, a, |p|);
  }

  predicate NoEnd(x: seq<Element>) {
    forall i | 0 <= i < |x| :: !IsEndOfSequence(x[i])
  }

  lemma {:induction false} GenJoin(rules: Rules, x: seq<Element>, y: seq<Element>, u: Word, v: Word, n: nat)
    requires HeadOk(y) && NoEnd(x) && Gen(rules, x, u, n) && Gen(rules, y, v, n)
    ensures Gen(rules, x + y, u + v, n)
    decreases |x|
  {
    if x == [] {
      assert x + y == y && u + v == v;
    } else if x[0].kind.RuleRef? {
      var a, p, q := SplitReference(rules, x, u, n);
      GenJoin(rules, x[1..], y, q, v, n);
      JoinFirst(rules, x, y, n, a, p, q + v);
      Associate(p, q, v);
    } else {
      GenJoin(rules, x[ClassLen(x)..], y, u[1..], v, n);
      JoinClass(rules, x, y, u, v, n);
    }
  }

  lemma JoinFirst(rules: Rules, x: seq<Element>, y: seq<Element>, n: nat, a: nat, p: Word, q: Word)
    requires |x| > 0 && x[0].kind.RuleRef? && n > 0 && x[0].value < |rules| && IsAltStart(rules[x[0].value], a)
    requires Gen(rules, rules[x[0].value][a..], p, n - 1) && Gen(rules, x[1..] + y, q, n)
    ensures Gen(rules, x + y, p + q, n)
  {
    assert (x + y)[1..] == x[1..] + y;
    JoinReference(rules, x + y, n, a, p, q);
  }

  lemma JoinClass(rules: Rules, x: seq<Element>, y: seq<Element>, u: Word, v: Word, n: nat)
    requires HeadOk(y) && |x| > 0 && (x[0].kind.Char? || x[0].kind.CharNot?) && |u| > 0 && Accepts(x, u[0])
    requires Gen(rules, x[ClassLen(x)..] + y, u[1..] + v, n)
    ensures Gen(rules, x + y, u + v, n)
  {
    ClassOfConcat(x, y, u[0]);
    assert (u + v)[1..] == u[1..] + v;
  }

  lemma {:induction false} GenSplit(rules: Rules, x: seq<Element>, y: seq<Element>, w: Word, n: nat)
    returns (u: Word, v: Word)
    requires HeadOk(y) && NoEnd(x) && Gen(rules, x + y, w, n)
    ensures w == u + v && Gen(rules, x, u, n) && Gen(rules, y, v, n)
    decreases |x|
  {
    hide Accepts, IsAltStart;
    if x == [] {
      u, v := [], w;
      assert x + y == y;
    } else if x[0].kind.RuleRef? {
      var a, p, q := SplitFirst(rules, x, y, w, n);
      u, v := GenSplit(rules, x[1..], y, q, n);
      JoinReference(rules, x, n, a, p, u);
      Associate(p, u, v);
      u := p + u;
    } else {
      SplitClass(rules, x, y, w, n);
      u, v := GenSplit(rules, x[ClassLen(x)..], y, w[1..], n);
      ConsClass(rules, x, w[0], u, n);
      Associate([w[0]], u, v);
      u := [w[0]] + u;
    }
  }

  lemma Associate(p: Word, q: Word, v: Word)
    ensures p + (q + v) == (p + q) + v
  {
  }

  lemma SplitFirst(rules: Rules, x: seq<Element>, y: seq<Element>, w: Word, n: nat) returns (a: nat, p: Word, q: Word)
    requires |x| > 0 && x[0].kind.RuleRef? && Gen(rules, x + y, w, n)
    ensures n > 0 && x[0].value < |rules| && IsAltStart(rules[x[0].value], a) && w == p + q
    ensures Gen(rules, rules[x[0].value][a..], p, n - 1) && Gen(rules, x[1..] + y, q, n)
  {
    a, p, q := SplitReference(rules, x + y, w, n);
    assert (x + y)[1..] == x[1..] + y;
  }

  lemma SplitClass(rules: Rules, x: seq<Element>, y: seq<Element>, w: Word, n: nat)
    requires HeadOk(y) && |x| > 0 && !x[0].kind.RuleRef? && !IsEndOfSequence(x[0]) && Gen(rules, x + y, w, n)
    ensures x[0].kind.Char? || x[0].kind.CharNot?
    ensures |w| > 0 && Accepts(x, w[0]) && Gen(rules, x[ClassLen(x)..] + y, w[1..], n)
  {
    ClassOfConcat(x, y, w[0]);
  }

  lemma ConsClass(rules: Rules, x: seq<Element>, c: nat, t: Word, n: nat)
    requires |x| > 0 && (x[0].kind.Char? || x[0].kind.CharNot?) && Accepts(x, c) && Gen(rules, x[ClassLen(x)..], t, n)
    ensures Gen(rules, x, [c] + t, n)
  {
    assert ([c] + t)[1..] == t;
  }

  /** What follows the end of an alternate does not matter. */
  lemma {:induction false} GenIgnoresRest(rules: Rules, x: seq<Element>, s: seq<Element>, t: seq<Element>, w: Word,
                                          n: nat)
    requires AtEnd(s) && AtEnd(t)
    ensures Gen(rules, x + s, w, n) <==> Gen(rules, x + t, w, n)
    decreases |x|
  {
    var y, z := x + s, x + t;
    if x == [] {
      assert y == s && z == t;
    } else if IsEndOfSequence(x[0]) {
    } else if x[0].kind.RuleRef? {
      assert y[1..] == x[1..] + s && z[1..] == x[1..] + t;
      forall v
        ensures Gen(rules, y[1..], v, n) <==> Gen(rules, z[1..], v, n)
      {
        GenIgnoresRest(rules, x[1..], s, t, v, n);
      }
    } else if |w| > 0 {
      ClassOfConcat(x, s, w[0]);
      ClassOfConcat(x, t, w[0]);
      GenIgnoresRest(rules, x[ClassLen(x)..], s, t, w[1..], n);
    }
  }

  lemma GenAlone(rules: Rules, x: seq<Element>, s: seq<Element>, w: Word, n: nat)
    requires AtEnd(s)
    ensures Gen(rules, x + s, w, n) <==> Gen(rules, x, w, n)
  {
    GenIgnoresRest(rules, x, s, [], w, n);
    assert x + [] == x;
  }

  lemma GenReference(rules: Rules, v: nat, w: Word, n: nat)
    ensures Gen(rules, [Element(RuleRef, v)], w, n) <==> n > 0 && RuleGen(rules, v, w, n - 1)
  {
    var s := [Element(RuleRef, v)];
    assert s[1..] == [] && w[..|w|] == w && w[|w|..] == [];
    if Gen(rules, s, w, n) {
      var a, k :| 0 <= k <= |w| && IsAltStart(rules[v], a) && Gen(rules, rules[v][a..], w[..k], n - 1) &&
        Gen(rules, s[1..], w[k..], n);
      assert k == |w|;
    }
    if n > 0 && RuleGen(rules, v, w, n - 1) {
      var a :| IsAltStart(rules[v], a) && Gen(rules, rules[v][a..], w, n - 1);
      assert Gen(rules, rules[v][a..], w[..|w|], n - 1) && Gen(rules, s[1..], w[|w|..], n);
    }
  }

  // ---------------------------------------------------------------- Terminals

  lemma {:induction false} CharsGen(rules: Rules, cs: seq<nat>, w: Word, n: nat)
    ensures Gen(rules, CharElements(cs), w, n) <==> w == cs
    decreases |cs|
  {
    var e := CharElements(cs);
    if cs != [] && w != [] {
      assert e[1..] == CharElements(cs[1..]);
      CharsGen(rules, cs[1..], w[1..], n);
      assert ClassLen(e) == 1 && !MoreRanges(e);
      assert w == [w[0]] + w[1..] && cs == [cs[0]] + cs[1..];
    }
  }

  lemma {:induction false} ClassElementsMean(k: Kind, rs: seq<Src.Range>, c: nat)
    requires rs != []
    ensures var e := ClassElements(k, rs);
      |e| > 0 && e[0].kind == k && ClassLen(e) == |e| && (ClassHas(e, c) <==> InRanges(rs, c))
    decreases rs
  {
    var e, first, rest := ClassElements(k, rs), RangeElements(k, rs[0]), ClassElements(CharAlt, rs[1..]);
    if rs[1..] == [] {
      assert e == first;
    } else {
      ClassElementsMean(CharAlt, rs[1..], c);
      assert e[|first|] == rest[0] && e[|first|..] == rest;
    }
    assert RangeLen(e) == |first| && RangeHas(e, c) == RangeContains(rs[0], c);
    assert InRanges(rs, c) <==> RangeContains(rs[0], c) || InRanges(rs[1..], c) by {
      if i :| 0 <= i < |rs| && RangeContains(rs[i], c) {
        if i > 0 { assert RangeContains(rs[1..][i - 1], c); }
      }
      if i :| 0 <= i < |rs[1..]| && RangeContains(rs[1..][i], c) {
        assert RangeContains(rs[i + 1], c);
      }
    }
  }

  lemma ClassGen(rules: Rules, neg: bool, rs: seq<Src.Range>, w: Word, n: nat)
    requires rs != []
    ensures Gen(rules, ClassElements(ClassKind(neg), rs), w, n) <==> |w| == 1 && InRanges(rs, w[0]) != neg
  {
    var e := ClassElements(ClassKind(neg), rs);
    ClassElementsMean(ClassKind(neg), rs, if w == [] then 0 else w[0]);
    assert e[ClassLen(e)..] == [];
  }

  lemma {:induction false} CharsAreClean(cs: seq<nat>)
    ensures Clean(CharElements(cs))
  {
    if cs != [] {
      CharsAreClean(cs[1..]);
    }
  }

  lemma {:induction false} ClassIsClean(k: Kind, rs: seq<Src.Range>)
    requires !k.End? && !k.Alt?
    ensures NoEnd(ClassElements(k, rs))
    ensures k.Char? || k.CharNot? ==> HeadOk(ClassElements(k, rs))
    decreases rs
  {
    if rs != [] {
      ClassIsClean(CharAlt, rs[1..]);
    }
  }

  lemma ItemIsClean(c: Emitted, e: seq<Element>, x: Src.Item)
    requires IsItem(c, e, x)
    ensures Clean(e)
  {
    match x
    case Literal(cs) => CharsAreClean(cs);
    case Class(neg, rs) => ClassIsClean(ClassKind(neg), rs);
    case _ =>
  }

  lemma {:induction false} SequenceIsClean(c: Emitted, e: seq<Element>, s: Src.Sequence)
    requires IsSequence(c, e, s)
    ensures Clean(e)
    decreases s
  {
    if s.Snoc? {
      var k :| 0 <= k <= |e| && IsSequence(c, e[..k], s.init) && IsItem(c, e[k..], s.last);
      SequenceIsClean(c, e[..k], s.init);
      ItemIsClean(c, e[k..], s.last);
      CleanConcat(e[..k], e[k..]);
      assert e[..k] + e[k..] == e;
    }
  }

  lemma CleanConcat(x: seq<Element>, y: seq<Element>)
    requires Clean(x) && Clean(y)
    ensures Clean(x + y)
  {
  }

  // ---------------------------------------------------------------- The grammars that are meant

  /** Classes have ranges, and names are words. */
  predicate ProperItem(x: Src.Item) {
    match x
    case Class(_, rs) => rs != []
    case Ref(name) => IsWordName(name)
    case Group(a) => ProperAlternates(a)
    case Repeat(y, _) => ProperItem(y)
    case _ => true
  }

  predicate ProperSequence(s: Src.Sequence) {
    s.Snoc? ==> ProperSequence(s.init) && ProperItem(s.last)
  }

  predicate ProperAlternates(a: Src.Alternates) {
    match a
    case One(s) => ProperSequence(s)
    case More(f, s) => ProperAlternates(f) && ProperSequence(s)
  }

  predicate ProperGrammar(g: seq<Src.RuleDef>) {
    forall i | 0 <= i < |g| :: ProperAlternates(g[i].alts)
  }

  lemma {:induction false} BodyIsProper(g: seq<Src.RuleDef>, name: string)
    requires ProperGrammar(g) && Defines(g, name)
    ensures ProperAlternates(Body(g, name))
  {
    if g[|g| - 1].name != name {
      BodyIsProper(g[..|g| - 1], name);
    }
  }

  // ---------------------------------------------------------------- Alternates inside a rule

  /** Where an alternate of `x | y` starts: in `x`, or at `y`. */
  lemma AlternateOfMore(x: seq<Element>, y: seq<Element>, s: nat)
    requires NoEnd(y) && IsAltStart(x + [ALT] + y + [END], s)
    ensures s == |x| + 1 || (s <= |x| && IsAltStart(x + [END], s))
    ensures s == |x| + 1 ==> (x + [ALT] + y + [END])[s..] == y + [END]
    ensures s <= |x| ==>
      (x + [ALT] + y + [END])[s..] == x[s..] + ([ALT] + y + [END]) && (x + [END])[s..] == x[s..] + [END]
  {
    var rule := x + [ALT] + y + [END];
    assert forall t | |x| < t <= |x| + |y| :: rule[t] == y[t - (|x| + 1)];
    assert forall t | 0 <= t < |x| :: rule[t] == (x + [END])[t];
  }

  lemma AlternateOfOne(x: seq<Element>, s: nat)
    requires NoEnd(x) && IsAltStart(x + [END], s)
    ensures s == 0
  {
    if s > 0 {
      assert (x + [END])[s - 1] == x[s - 1];
    }
  }

  // ---------------------------------------------------------------- Derived words are meant

  lemma {:induction false} ItemSound(c: Emitted, g: seq<Src.RuleDef>, e: seq<Element>, x: Src.Item, w: Word, m: nat)
    requires Implements(c, g) && ProperGrammar(g) && IsItem(c, e, x) && ProperItem(x)
    requires Gen(c.rules, e, w, m)
    ensures ItemMeans(g, x, w, m)
    decreases m, x, 1
  {
    match x
    case Literal(cs) => CharsGen(c.rules, cs, w, m);
    case Class(neg, rs) => ClassGen(c.rules, neg, rs, w, m);
    case Ref(name) =>
      GenReference(c.rules, c.ids[name], w, m);
      assert Defines(g, name);
      BodyIsProper(g, name);
      RuleSound(c, g, c.ids[name], Body(g, name), w, m - 1);
    case Group(a) =>
      GenReference(c.rules, e[0].value, w, m);
      RuleSound(c, g, e[0].value, a, w, m - 1);
      AlternatesMeanMonotone(g, a, w, m - 1, m);
    case Repeat(y, op) =>
      var v := e[0].value;
      var body :| IsItem(c, body, y) && RuleAt(c.rules, v) == RepeatRule(body, op, v);
      var ws := RepeatSound(c, g, v, body, y, op, w, m);
  }

  lemma {:induction false} SequenceSound(c: Emitted, g: seq<Src.RuleDef>, e: seq<Element>, s: Src.Sequence, w: Word,
                                         m: nat)
    requires Implements(c, g) && ProperGrammar(g) && IsSequence(c, e, s) && ProperSequence(s)
    requires Gen(c.rules, e, w, m)
    ensures SequenceMeans(g, s, w, m)
    decreases m, s, 1
  {
    hide Gen, ItemMeans, IsItem, Implements, ProperGrammar;
    if s.Snoc? {
      var k :| 0 <= k <= |e| && IsSequence(c, e[..k], s.init) && IsItem(c, e[k..], s.last);
      SequenceIsClean(c, e[..k], s.init);
      ItemIsClean(c, e[k..], s.last);
      assert e == e[..k] + e[k..];
      var u, v := GenSplit(c.rules, e[..k], e[k..], w, m);
      SequenceSound(c, g, e[..k], s.init, u, m);
      ItemSound(c, g, e[k..], s.last, v, m);
      assert w[..|u|] == u && w[|u|..] == v;
    } else {
      NothingGen(c.rules, w, m);
    }
  }

  lemma {:induction false} RuleSound(c: Emitted, g: seq<Src.RuleDef>, r: nat, a: Src.Alternates, w: Word, m: nat)
    requires Implements(c, g) && ProperGrammar(g) && IsRule(c, RuleAt(c.rules, r), a) && ProperAlternates(a)
    requires RuleGen(c.rules, r, w, m)
    ensures AlternatesMean(g, a, w, m)
    decreases m, a, 2
  {
    hide Gen, IsAlternates, AlternatesMean, Implements, ProperGrammar;
    var e := c.rules[r][..|c.rules[r]| - 1];
    assert c.rules[r] == e + [END];
    var s := AlternateOf(c.rules, r, e, w, m);
    AlternatesSound(c, g, e, a, s, w, m);
  }

  lemma AlternateOf(rules: Rules, r: nat, e: seq<Element>, w: Word, m: nat) returns (s: nat)
    requires RuleGen(rules, r, w, m) && rules[r] == e + [END]
    ensures IsAltStart(e + [END], s) && Gen(rules, (e + [END])[s..], w, m)
  {
    var t :| IsAltStart(rules[r], t) && Gen(rules, rules[r][t..], w, m);
    s := t;
  }

  lemma SplitAlternates(c: Emitted, e: seq<Element>, f: Src.Alternates, q: Src.Sequence)
    returns (x: seq<Element>, y: seq<Element>)
    requires IsAlternates(c, e, Src.More(f, q))
    ensures e == x + [ALT] + y && |x| < |e| && IsAlternates(c, x, f) && IsSequence(c, y, q) && NoEnd(y)
  {
    var k :| 0 <= k < |e| && e[k] == ALT && IsAlternates(c, e[..k], f) && IsSequence(c, e[k + 1..], q);
    x, y := e[..k], e[k + 1..];
    SequenceIsClean(c, y, q);
  }

  lemma {:induction false} AlternatesSound(c: Emitted, g: seq<Src.RuleDef>, e: seq<Element>, a: Src.Alternates, s: nat,
                                           w: Word, m: nat)
    requires Implements(c, g) && ProperGrammar(g) && IsAlternates(c, e, a) && ProperAlternates(a)
    requires IsAltStart(e + [END], s) && Gen(c.rules, (e + [END])[s..], w, m)
    ensures AlternatesMean(g, a, w, m)
    decreases m, a, 1
  {
    hide Gen, SequenceMeans, IsSequence, IsItem, ItemMeans, Implements, ProperGrammar, ProperSequence;
    match a
    case One(q) =>
      SequenceIsClean(c, e, q);
      AlternateOfOne(e, s);
      assert (e + [END])[0..] == e + [END];
      GenAlone(c.rules, e, [END], w, m);
      SequenceSound(c, g, e, q, w, m);
    case More(f, q) =>
      hide IsAlternates;
      var x, y := SplitAlternates(c, e, f, q);
      AlternateOfMore(x, y, s);
      if s == |x| + 1 {
        GenAlone(c.rules, y, [END], w, m);
        SequenceSound(c, g, y, q, w, m);
      } else {
        GenIgnoresRest(c.rules, x[s..], [ALT] + y + [END], [END], w, m);
        AlternatesSound(c, g, x, f, s, w, m);
      }
  }

  /** The synthesised rule of a repetition has two alternates. */
  lemma RepeatAlternates(body: seq<Element>, op: Src.Op, v: nat, s: nat)
    requires NoEnd(body) && IsAltStart(RepeatRule(body, op, v), s)
    ensures var first := body + if op.Opt? then [] else [Element(RuleRef, v)];
      var second := if op.Plus? then body else [];
      && NoEnd(first) && NoEnd(second)
      && (s == 0 || s == |first| + 1)
      && (s == 0 ==> RepeatRule(body, op, v)[s..] == first + ([ALT] + second + [END]))
      && (s != 0 ==> RepeatRule(body, op, v)[s..] == second + [END])
  {
    var first := body + if op.Opt? then [] else [Element(RuleRef, v)];
    var second := if op.Plus? then body else [];
    assert RepeatRule(body, op, v) == first + [ALT] + second + [END];
    AlternateOfMore(first, second, s);
    if s <= |first| {
      AlternateOfOne(first, s);
    }
  }

  lemma RepeatChoice(rules: Rules, body: seq<Element>, op: Src.Op, v: nat, w: Word, n: nat) returns (first: bool)
    requires NoEnd(body) && RuleAt(rules, v) == RepeatRule(body, op, v) && RuleGen(rules, v, w, n)
    ensures first ==> Gen(rules, (body + if op.Opt? then [] else [Element(RuleRef, v)])
                                 + ([ALT] + (if op.Plus? then body else []) + [END]), w, n)
    ensures !first ==> Gen(rules, (if op.Plus? then body else []) + [END], w, n)
  {
    var s :| IsAltStart(rules[v], s) && Gen(rules, rules[v][s..], w, n);
    RepeatAlternates(body, op, v, s);
    first := s == 0;
  }

  lemma {:induction false} RepeatSound(c: Emitted, g: seq<Src.RuleDef>, v: nat, body: seq<Element>, y: Src.Item,
                                       op: Src.Op, w: Word, m: nat)
    returns (ws: seq<Word>)
    requires Implements(c, g) && ProperGrammar(g) && IsItem(c, body, y) && ProperItem(y)
    requires RuleAt(c.rules, v) == RepeatRule(body, op, v)
    requires Gen(c.rules, [Element(RuleRef, v)], w, m)
    ensures CountOk(op, |ws|) && Flatten(ws) == w && forall i | 0 <= i < |ws| :: ItemMeans(g, y, ws[i], m)
    decreases m, y, 3
  {
    ItemIsClean(c, body, y);
    GenReference(c.rules, v, w, m);
    var first := RepeatChoice(c.rules, body, op, v, w, m - 1);
    if first {
      ws := RepeatFirst(c, g, v, body, y, op, w, m - 1);
    } else {
      ws := RepeatSecond(c, g, body, y, op, w, m - 1);
    }
  }

  lemma {:induction false} RepeatSecond(c: Emitted, g: seq<Src.RuleDef>, body: seq<Element>, y: Src.Item, op: Src.Op,
                                        w: Word, m: nat)
    returns (ws: seq<Word>)
    requires Implements(c, g) && ProperGrammar(g) && IsItem(c, body, y) && ProperItem(y)
    requires Gen(c.rules, (if op.Plus? then body else []) + [END], w, m)
    ensures CountOk(op, |ws|) && Flatten(ws) == w && forall i | 0 <= i < |ws| :: ItemMeans(g, y, ws[i], m + 1)
    decreases m, y, 4
  {
    GenAlone(c.rules, if op.Plus? then body else [], [END], w, m);
    if op.Plus? {
      ItemSound(c, g, body, y, w, m);
      ItemMeansMonotone(g, y, w, m, m + 1);
      ws := [w];
      assert Flatten(ws) == w + Flatten([]) == w;
    } else {
      ws := [];
    }
  }

  lemma NothingGen(rules: Rules, w: Word, n: nat)
    requires Gen(rules, [], w, n)
    ensures w == []
  {
  }

  lemma {:induction false} RepeatFirst(c: Emitted, g: seq<Src.RuleDef>, v: nat, body: seq<Element>, y: Src.Item,
                                       op: Src.Op, w: Word, m: nat)
    returns (ws: seq<Word>)
    requires Implements(c, g) && ProperGrammar(g) && IsItem(c, body, y) && ProperItem(y) && Clean(body)
    requires RuleAt(c.rules, v) == RepeatRule(body, op, v)
    requires Gen(c.rules, (body + if op.Opt? then [] else [Element(RuleRef, v)])
      + ([ALT] + (if op.Plus? then body else []) + [END]), w, m)
    ensures CountOk(op, |ws|) && Flatten(ws) == w && forall i | 0 <= i < |ws| :: ItemMeans(g, y, ws[i], m + 1)
    decreases m, y, 4
  {
    hide Gen, ItemMeans, IsItem, Implements, ProperGrammar, ProperItem;
    var again := if op.Opt? then [] else [Element(RuleRef, v)];
    GenAlone(c.rules, body + again, [ALT] + (if op.Plus? then body else []) + [END], w, m);
    var p, t := GenSplit(c.rules, body, again, w, m);
    ItemSound(c, g, body, y, p, m);
    ItemMeansMonotone(g, y, p, m, m + 1);
    if op.Opt? {
      ws := [p];
      NothingGen(c.rules, t, m);
      assert w == p;
      OneWord(ws);
    } else {
      var rest := RepeatSound(c, g, v, body, y, op, t, m);
      forall i | 0 <= i < |rest|
        ensures ItemMeans(g, y, rest[i], m + 1)
      {
        ItemMeansMonotone(g, y, rest[i], m, m + 1);
      }
      ws := [p] + rest;
      assert ws[1..] == rest;
    }
  }

  // ---------------------------------------------------------------- Meant words are derived

  lemma {:induction false} ItemComplete(c: Emitted, g: seq<Src.RuleDef>, e: seq<Element>, x: Src.Item, w: Word, n: nat)
    returns (m: nat)
    requires Implements(c, g) && ProperGrammar(g) && IsItem(c, e, x) && ProperItem(x)
    requires ItemMeans(g, x, w, n)
    ensures Gen(c.rules, e, w, m)
    decreases n, x, 1
  {
    m := 0;
    match x {
      case Literal(cs) => CharsGen(c.rules, cs, w, m);
      case Class(neg, rs) => ClassGen(c.rules, neg, rs, w, m);
      case Ref(name) =>
        BodyIsProper(g, name);
        m := RuleComplete(c, g, c.ids[name], Body(g, name), w, n - 1);
        m := m + 1;
        GenReference(c.rules, c.ids[name], w, m);
      case Group(a) =>
        m := RuleComplete(c, g, e[0].value, a, w, n);
        m := m + 1;
        GenReference(c.rules, e[0].value, w, m);
      case Repeat(y, op) =>
        var v := e[0].value;
        var body :| IsItem(c, body, y) && RuleAt(c.rules, v) == RepeatRule(body, op, v);
        var ws: seq<Word> :| CountOk(op, |ws|) && Flatten(ws) == w &&
          forall i | 0 <= i < |ws| :: ItemMeans(g, y, ws[i], n);
        m := RepeatComplete(c, g, v, body, y, op, ws, n);
    }
  }

  lemma {:induction false} SequenceComplete(c: Emitted, g: seq<Src.RuleDef>, e: seq<Element>, s: Src.Sequence, w: Word,
                                            n: nat) returns (m: nat)
    requires Implements(c, g) && ProperGrammar(g) && IsSequence(c, e, s) && ProperSequence(s)
    requires SequenceMeans(g, s, w, n)
    ensures Gen(c.rules, e, w, m)
    decreases n, s, 1
  {
    hide Implements, ProperGrammar, IsSequence, SequenceMeans, Gen, IsItem, ItemMeans;
    if s.Empty? {
      m := 0;
      EmptySequenceGen(c, g, e, s, w, n);
    } else {
      var k := SplitElements(c, e, s);
      var l := SplitMeaning(g, s, w, n);
      var m1 := SequenceComplete(c, g, e[..k], s.init, w[..l], n);
      var m2 := ItemComplete(c, g, e[k..], s.last, w[l..], n);
      m := m1 + m2;
      JoinParts(c.rules, e, k, w, l, m1, m2);
    }
  }

  lemma EmptySequenceGen(c: Emitted, g: seq<Src.RuleDef>, e: seq<Element>, s: Src.Sequence, w: Word, n: nat)
    requires IsSequence(c, e, s) && SequenceMeans(g, s, w, n) && s.Empty?
    ensures Gen(c.rules, e, w, 0)
  {
  }

  lemma SplitElements(c: Emitted, e: seq<Element>, s: Src.Sequence) returns (k: nat)
    requires IsSequence(c, e, s) && s.Snoc?
    ensures k <= |e| && IsSequence(c, e[..k], s.init) && IsItem(c, e[k..], s.last)
    ensures NoEnd(e[..k]) && HeadOk(e[k..])
  {
    k :| 0 <= k <= |e| && IsSequence(c, e[..k], s.init) && IsItem(c, e[k..], s.last);
    SequenceIsClean(c, e[..k], s.init);
    ItemIsClean(c, e[k..], s.last);
  }

  lemma SplitMeaning(g: seq<Src.RuleDef>, s: Src.Sequence, w: Word, n: nat) returns (l: nat)
    requires SequenceMeans(g, s, w, n) && s.Snoc?
    ensures l <= |w| && SequenceMeans(g, s.init, w[..l], n) && ItemMeans(g, s.last, w[l..], n)
  {
    l :| 0 <= l <= |w| && SequenceMeans(g, s.init, w[..l], n) && ItemMeans(g, s.last, w[l..], n);
  }

  lemma JoinParts(rules: Rules, e: seq<Element>, k: nat, w: Word, l: nat, m1: nat, m2: nat)
    requires k <= |e| && l <= |w| && NoEnd(e[..k]) && HeadOk(e[k..])
    requires Gen(rules, e[..k], w[..l], m1) && Gen(rules, e[k..], w[l..], m2)
    ensures Gen(rules, e, w, m1 + m2)
  {
    hide Gen;
    GenMonotone(rules, e[..k], w[..l], m1, m1 + m2);
    GenMonotone(rules, e[k..], w[l..], m2, m1 + m2);
    GenJoin(rules, e[..k], e[k..], w[..l], w[l..], m1 + m2);
    assert e[..k] + e[k..] == e && w[..l] + w[l..] == w;
  }

  lemma {:induction false} RuleComplete(c: Emitted, g: seq<Src.RuleDef>, r: nat, a: Src.Alternates, w: Word, n: nat)
    returns (m: nat)
    requires Implements(c, g) && ProperGrammar(g) && IsRule(c, RuleAt(c.rules, r), a) && ProperAlternates(a)
    requires AlternatesMean(g, a, w, n)
    ensures RuleGen(c.rules, r, w, m)
    decreases n, a, 2
  {
    var e := c.rules[r][..|c.rules[r]| - 1];
    assert c.rules[r] == e + [END];
    var s;
    s, m := AlternatesComplete(c, g, e, a, w, n);
  }

  lemma {:induction false} AlternatesComplete(c: Emitted, g: seq<Src.RuleDef>, e: seq<Element>, a: Src.Alternates,
                                              w: Word, n: nat)
    returns (s: nat, m: nat)
    requires Implements(c, g) && ProperGrammar(g) && IsAlternates(c, e, a) && ProperAlternates(a)
    requires AlternatesMean(g, a, w, n)
    ensures IsAltStart(e + [END], s) && Gen(c.rules, (e + [END])[s..], w, m)
    decreases n, a, 1
  {
    hide Gen, SequenceMeans, IsSequence, IsItem, ItemMeans, Implements, ProperGrammar, ProperSequence;
    match a
    case One(q) =>
      m := SequenceComplete(c, g, e, q, w, n);
      s := 0;
      assert (e + [END])[0..] == e + [END];
      GenAlone(c.rules, e, [END], w, m);
    case More(f, q) =>
      hide IsAlternates;
      var x, y := SplitAlternates(c, e, f, q);
      if AlternatesMean(g, f, w, n) {
        s, m := AlternatesComplete(c, g, x, f, w, n);
        StartInFirst(c.rules, x, y, s, w, m);
      } else {
        m := SequenceComplete(c, g, y, q, w, n);
        s := |x| + 1;
        GenAlone(c.rules, y, [END], w, m);
        StartOfSecond(x, y);
      }
  }

  lemma StartInFirst(rules: Rules, x: seq<Element>, y: seq<Element>, s: nat, w: Word, m: nat)
    requires IsAltStart(x + [END], s) && Gen(rules, (x + [END])[s..], w, m)
    ensures IsAltStart(x + [ALT] + y + [END], s) && Gen(rules, (x + [ALT] + y + [END])[s..], w, m)
  {
    var rule := x + [ALT] + y + [END];
    assert rule[s..] == x[s..] + ([ALT] + y + [END]) && (x + [END])[s..] == x[s..] + [END];
    assert s > 0 ==> rule[s - 1] == (x + [END])[s - 1];
    GenIgnoresRest(rules, x[s..], [ALT] + y + [END], [END], w, m);
  }

  lemma StartOfSecond(x: seq<Element>, y: seq<Element>)
    ensures IsAltStart(x + [ALT] + y + [END], |x| + 1) && (x + [ALT] + y + [END])[|x| + 1..] == y + [END]
  {
    assert (x + [ALT] + y + [END])[|x|] == ALT;
  }

  /** Choosing an alternate of the synthesised rule of a repetition. */
  lemma TakeRepeat(rules: Rules, body: seq<Element>, op: Src.Op, v: nat, first: bool, w: Word, n: nat)
    requires RuleAt(rules, v) == RepeatRule(body, op, v)
    requires first ==> Gen(rules, body + if op.Opt? then [] else [Element(RuleRef, v)], w, n)
    requires !first ==> Gen(rules, if op.Plus? then body else [], w, n)
    ensures Gen(rules, [Element(RuleRef, v)], w, n + 1)
  {
    var x, y := body + if op.Opt? then [] else [Element(RuleRef, v)], if op.Plus? then body else [];
    assert rules[v] == x + [ALT] + y + [END];
    if first {
      assert rules[v][0..] == x + ([ALT] + y + [END]);
      GenAlone(rules, x, [ALT] + y + [END], w, n);
      assert IsAltStart(rules[v], 0) && Gen(rules, rules[v][0..], w, n);
    } else {
      StartOfSecond(x, y);
      GenAlone(rules, y, [END], w, n);
    }
    GenReference(rules, v, w, n + 1);
  }

  lemma {:induction false} RepeatComplete(c: Emitted, g: seq<Src.RuleDef>, v: nat, body: seq<Element>, y: Src.Item,
                                          op: Src.Op, ws: seq<Word>, n: nat)
    returns (m: nat)
    requires Implements(c, g) && ProperGrammar(g) && IsItem(c, body, y) && ProperItem(y)
    requires RuleAt(c.rules, v) == RepeatRule(body, op, v)
    requires CountOk(op, |ws|) && forall i | 0 <= i < |ws| :: ItemMeans(g, y, ws[i], n)
    ensures Gen(c.rules, [Element(RuleRef, v)], Flatten(ws), m)
    decreases n, y, 2, |ws|, 1
  {
    if ws == [] {
      TakeRepeat(c.rules, body, op, v, false, [], 0);
      m := 1;
    } else {
      ItemIsClean(c, body, y);
      m := ItemComplete(c, g, body, y, ws[0], n);
      if op.Star? || |ws| > 1 {
        m := RepeatMore(c, g, v, body, y, op, ws, n, m);
      } else {
        OneWord(ws);
        TakeOnce(c.rules, body, op, v, ws[0], m);
        m := m + 1;
      }
    }
  }

  lemma {:induction false} RepeatMore(c: Emitted, g: seq<Src.RuleDef>, v: nat, body: seq<Element>, y: Src.Item,
                                      op: Src.Op, ws: seq<Word>, n: nat, m1: nat)
    returns (m: nat)
    requires Implements(c, g) && ProperGrammar(g) && IsItem(c, body, y) && ProperItem(y)
    requires RuleAt(c.rules, v) == RepeatRule(body, op, v) && NoEnd(body)
    requires ws != [] && !op.Opt? && CountOk(op, |ws| - 1)
    requires Gen(c.rules, body, ws[0], m1) && forall i | 0 <= i < |ws| :: ItemMeans(g, y, ws[i], n)
    ensures Gen(c.rules, [Element(RuleRef, v)], Flatten(ws), m)
    decreases n, y, 2, |ws|, 0
  {
    hide Gen, ItemMeans, IsItem, Implements, ProperGrammar, ProperItem;
    var m2 := RepeatComplete(c, g, v, body, y, op, ws[1..], n);
    RepeatAgain(c.rules, body, op, v, ws[0], Flatten(ws[1..]), m1, m2);
    m := m1 + m2 + 1;
  }

  lemma TakeOnce(rules: Rules, body: seq<Element>, op: Src.Op, v: nat, w: Word, n: nat)
    requires !op.Star? && RuleAt(rules, v) == RepeatRule(body, op, v) && Gen(rules, body, w, n)
    ensures Gen(rules, [Element(RuleRef, v)], w, n + 1)
  {
    assert body + [] == body;
    TakeRepeat(rules, body, op, v, op.Opt?, w, n);
  }

  lemma OneWord(ws: seq<Word>)
    requires |ws| == 1
    ensures Flatten(ws) == ws[0]
  {
    assert Flatten(ws) == ws[0] + Flatten([]);
  }

  lemma RepeatAgain(rules: Rules, body: seq<Element>, op: Src.Op, v: nat, p: Word, t: Word, m1: nat, m2: nat)
    requires !op.Opt? && RuleAt(rules, v) == RepeatRule(body, op, v)
    requires NoEnd(body) && Gen(rules, body, p, m1) && Gen(rules, [Element(RuleRef, v)], t, m2)
    ensures Gen(rules, [Element(RuleRef, v)], p + t, m1 + m2 + 1)
  {
    hide Gen;
    GenMonotone(rules, body, p, m1, m1 + m2);
    GenMonotone(rules, [Element(RuleRef, v)], t, m2, m1 + m2);
    GenJoin(rules, body, [Element(RuleRef, v)], p, t, m1 + m2);
    TakeRepeat(rules, body, op, v, true, p + t, m1 + m2);
  }

  // ---------------------------------------------------------------- The compiler keeps the meaning

  /** Rules that represent a grammar derive, for every name, exactly the words the name means. */
  lemma ImplementsKeepsMeaning(c: Emitted, g: seq<Src.RuleDef>, name: string, w: Word)
    requires Implements(c, g) && ProperGrammar(g) && Defines(g, name)
    ensures InRuleLanguage(c.rules, c.ids[name], w) <==> Means(g, name, w)
  {
    var r := c.ids[name];
    BodyIsProper(g, name);
    if InRuleLanguage(c.rules, r, w) {
      var n: nat :| RuleGen(c.rules, r, w, n);
      RuleSound(c, g, r, Body(g, name), w, n);
    }
    if Means(g, name, w) {
      var n: nat :| AlternatesMean(g, Body(g, name), w, n);
      var m := RuleComplete(c, g, r, Body(g, name), w, n);
    }
  }

  /** A class is compiled rightly exactly when it has a range: an empty class means no word (a negated one any
      character), but it emits nothing, which derives the empty word. */
  lemma ClassIsRightIff(c: Emitted, g: seq<Src.RuleDef>, neg: bool, rs: seq<Src.Range>, e: seq<Element>, n: nat)
    requires IsItem(c, e, Src.Class(neg, rs))
    ensures (forall w: Word :: Gen(c.rules, e, w, n) <==> ItemMeans(g, Src.Class(neg, rs), w, n)) <==> rs != []
  {
    if rs == [] {
      assert Gen(c.rules, e, [], n);
    } else {
      forall w: Word
        ensures Gen(c.rules, e, w, n) <==> ItemMeans(g, Src.Class(neg, rs), w, n)
      {
        ClassGen(c.rules, neg, rs, w, n);
      }
    }
  }
}
