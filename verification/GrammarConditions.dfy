/** When a grammar, as it is written, compiles to rules that the recogniser can work with.

All names must be defined. No name may start with itself, also not through names, groups and repetitions that may be
empty, and nothing that may be empty may be repeated by `*` or `+`: the source does not end on such rules. */
module GrammarConditions {
  import opened GrammarLanguage
  import opened GrammarMeaning
  import opened GrammarAdvance
  import opened GrammarAccept
  import opened GrammarCompiler
  import Src = GrammarSource

  // ---------------------------------------------------------------- Conditions on the notation

  /** A witness that no name starts with itself: names that may be empty, and a rank that falls from a name to every
      name it can start with. Groups and repetitions lie between. */
  datatype TreeOrder = TreeOrder(nullable: set<string>, rank: map<string, nat>)

  predicate ItemNullable(x: Src.Item, o: TreeOrder) {
    match x
    case Literal(cs) => cs == []
    case Class(_, rs) => rs == []
    case Ref(name) => name in o.nullable
    case Group(a) => AlternatesNullable(a, o)
    case Repeat(y, op) => !op.Plus? || ItemNullable(y, o)
  }

  predicate SequenceNullable(s: Src.Sequence, o: TreeOrder) {
    s.Empty? || (SequenceNullable(s.init, o) && ItemNullable(s.last, o))
  }

  predicate AlternatesNullable(a: Src.Alternates, o: TreeOrder) {
    match a
    case One(s) => SequenceNullable(s, o)
    case More(f, s) => AlternatesNullable(f, o) || SequenceNullable(s, o)
  }

  function NameRank(name: string, o: TreeOrder): nat {
    if name in o.rank then o.rank[name] else 0
  }

  function Max(a: nat, b: nat): nat { if a < b then b else a }

  /** A bound above the ranks of an item and of all that it can start with; 0 for literals and classes. */
  function ItemTop(x: Src.Item, o: TreeOrder): nat {
    match x
    case Literal(_) => 0
    case Class(_, _) => 0
    case Ref(name) => NameRank(name, o) + 1
    case Group(a) => AlternatesTop(a, o) + 1
    case Repeat(y, _) => ItemTop(y, o) + 1
  }

  function SequenceTop(s: Src.Sequence, o: TreeOrder): nat {
    if s.Empty? then 0
    else if SequenceNullable(s.init, o) then Max(SequenceTop(s.init, o), ItemTop(s.last, o))
    else SequenceTop(s.init, o)
  }

  function AlternatesTop(a: Src.Alternates, o: TreeOrder): nat {
    match a
    case One(s) => SequenceTop(s, o)
    case More(f, s) => Max(AlternatesTop(f, o), SequenceTop(s, o))
  }

  predicate RepeatsProperly(x: Src.Item, o: TreeOrder) {
    x.Repeat? && !x.op.Opt? ==> !ItemNullable(x.item, o)
  }

  ghost predicate IsTreeOrder(g: seq<Src.RuleDef>, o: TreeOrder) {
    && (forall name | Defines(g, name) ::
          && AlternatesTop(Body(g, name), o) <= NameRank(name, o)
          && (AlternatesNullable(Body(g, name), o) ==> name in o.nullable))
    && (forall x | x in Src.GrammarParts(g) :: RepeatsProperly(x, o))
  }

  ghost predicate NoLeftRecursion(g: seq<Src.RuleDef>) {
    exists o :: IsTreeOrder(g, o)
  }

  predicate AllDefined(g: seq<Src.RuleDef>) {
    forall name | name in Src.GrammarNames(g) :: Defines(g, name)
  }

  // ---------------------------------------------------------------- The order of the compiled rules

  /** `lo` ranks the rules as `o` ranks what they are compiled from. */
  ghost predicate Follows(c: Emitted, g: seq<Src.RuleDef>, o: TreeOrder, lo: LeftOrder) {
    && |lo.rank| == |c.rules|
    && (forall r | r in c.synthesised :: r < |lo.rank| && FollowsItem(c.synthesised[r], o, lo, r))
    && (forall name | Defines(g, name) && name in c.ids ::
      c.ids[name] < |lo.rank| && FollowsName(name, o, lo, c.ids[name]))
  }

  predicate FollowsItem(x: Src.Item, o: TreeOrder, lo: LeftOrder, r: nat)
    requires r < |lo.rank|
  {
    lo.rank[r] + 1 == ItemTop(x, o) && (r in lo.nullable <==> ItemNullable(x, o))
  }

  predicate FollowsName(name: string, o: TreeOrder, lo: LeftOrder, r: nat)
    requires r < |lo.rank|
  {
    lo.rank[r] == NameRank(name, o) && (r in lo.nullable <==> name in o.nullable)
  }

  predicate NamesDefined(g: seq<Src.RuleDef>, names: set<string>) {
    forall name | name in names :: Defines(g, name)
  }

  lemma FirstChar(cs: seq<nat>)
    requires cs != []
    ensures CharElements(cs) != [] && CharElements(cs)[0].kind.Char?
  {
  }

  lemma FirstRange(neg: bool, rs: seq<Src.Range>)
    requires rs != []
    ensures var e := ClassElements(ClassKind(neg), rs); e != [] && (e[0].kind.Char? || e[0].kind.CharNot?)
  {
  }

  /** A character at the head stops what can be started with. */
  lemma CharLeads(e: seq<Element>, rest: seq<Element>, lo: LeftOrder, k: nat)
    requires e != [] && (e[0].kind.Char? || e[0].kind.CharNot?)
    ensures LeadsBelow(e + rest, lo, k) && !AllNullable(e + rest, lo)
  {
    assert (e + rest)[0] == e[0];
  }

  lemma ReferenceLeads(r: nat, rest: seq<Element>, lo: LeftOrder, k: nat)
    requires r < |lo.rank|
    ensures AllNullable([Element(RuleRef, r)] + rest, lo) <==> r in lo.nullable && AllNullable(rest, lo)
    ensures LeadsBelow([Element(RuleRef, r)] + rest, lo, k) <==>
      lo.rank[r] < k && (r in lo.nullable ==> LeadsBelow(rest, lo, k))
  {
    var s := [Element(RuleRef, r)] + rest;
    assert s[0] == Element(RuleRef, r) && s[1..] == rest;
  }

  lemma ItemLeads(c: Emitted, g: seq<Src.RuleDef>, o: TreeOrder, lo: LeftOrder, e: seq<Element>, x: Src.Item,
                  rest: seq<Element>, k: nat)
    requires Follows(c, g, o, lo) && IsItem(c, e, x) && NamesDefined(g, Src.ItemNames(x))
    requires ItemTop(x, o) <= k && (ItemNullable(x, o) ==> LeadsBelow(rest, lo, k))
    ensures LeadsBelow(e + rest, lo, k)
    ensures AllNullable(e + rest, lo) ==> ItemNullable(x, o) && AllNullable(rest, lo)
  {
    hide LeadsBelow, AllNullable, AlternatesTop, AlternatesNullable, IsRule, RepeatRule;
    match x
    case Literal(cs) =>
      if cs == [] {
        assert e + rest == rest;
      } else {
        FirstChar(cs);
        CharLeads(e, rest, lo, k);
      }
    case Class(neg, rs) =>
      if rs == [] {
        assert e + rest == rest;
      } else {
        FirstRange(neg, rs);
        CharLeads(e, rest, lo, k);
      }
    case Ref(name) =>
      assert name in Src.ItemNames(x) && ItemTop(x, o) == NameRank(name, o) + 1;
      ReferenceLeads(c.ids[name], rest, lo, k);
    case _ =>
      assert StandsFor(c, e[0].value, x);
      ReferenceLeads(e[0].value, rest, lo, k);
  }

  lemma {:induction false} SequenceLeads(c: Emitted, g: seq<Src.RuleDef>, o: TreeOrder, lo: LeftOrder, e: seq<Element>,
                                         s: Src.Sequence,
                                         rest: seq<Element>, k: nat)
    requires Follows(c, g, o, lo) && IsSequence(c, e, s) && NamesDefined(g, Src.SequenceNames(s))
    requires SequenceTop(s, o) <= k && (SequenceNullable(s, o) ==> LeadsBelow(rest, lo, k))
    ensures LeadsBelow(e + rest, lo, k)
    ensures AllNullable(e + rest, lo) ==> SequenceNullable(s, o) && AllNullable(rest, lo)
    decreases s
  {
    hide LeadsBelow, AllNullable, ItemTop, Follows, IsItem;
    if s.Empty? {
      assert e + rest == rest;
    } else {
      var k0 :| 0 <= k0 <= |e| && IsSequence(c, e[..k0], s.init) && IsItem(c, e[k0..], s.last);
      var tail := e[k0..] + rest;
      assert e + rest == e[..k0] + tail;
      if SequenceNullable(s.init, o) {
        ItemLeads(c, g, o, lo, e[k0..], s.last, rest, k);
        SequenceLeads(c, g, o, lo, e[..k0], s.init, tail, k);
      } else {
        SequenceLeads(c, g, o, lo, e[..k0], s.init, tail, k);
      }
    }
  }

  lemma EndLeads(rest: seq<Element>, lo: LeftOrder, k: nat)
    requires AtEnd(rest)
    ensures LeadsBelow(rest, lo, k)
  {
  }

  lemma NoStartInside(e: seq<Element>, rest: seq<Element>, p: nat)
    requires NoEnd(e) && p <= |e| && IsAltStart(e + rest, p)
    ensures p == 0
  {
  }

  lemma StartAfterBar(e: seq<Element>, bar: nat, rest: seq<Element>, p: nat)
    requires bar < p <= |e| && NoEnd(e[bar + 1..]) && IsAltStart(e + rest, p)
    ensures p == bar + 1
  {
    var tail := e[bar + 1..];
    assert forall i | 0 <= i < |tail| :: tail[i] == e[bar + 1 + i] == (e + rest)[bar + 1 + i];
    assert forall j | bar + 1 <= j < |e| :: !e[j].kind.Alt? by {
      forall j | bar + 1 <= j < |e|
        ensures !e[j].kind.Alt?
      {
        assert tail[j - (bar + 1)] == e[j];
      }
    }
  }

  /** The alternate that begins at `p`. */
  lemma {:induction false} AlternatesLead(c: Emitted, g: seq<Src.RuleDef>, o: TreeOrder, lo: LeftOrder, e: seq<Element>,
                                          a: Src.Alternates,
                                          rest: seq<Element>, p: nat, k: nat)
    requires Follows(c, g, o, lo) && IsAlternates(c, e, a) && NamesDefined(g, Src.AlternatesNames(a))
    requires AlternatesTop(a, o) <= k && rest != [] && AtEnd(rest) && p <= |e| && IsAltStart(e + rest, p)
    ensures LeadsBelow((e + rest)[p..], lo, k)
    ensures AllNullable((e + rest)[p..], lo) ==> AlternatesNullable(a, o)
    decreases a
  {
    hide ItemTop, SequenceTop, SequenceNullable, Follows, IsSequence, LeadsBelow, AllNullable, Clean;
    EndLeads(rest, lo, k);
    match a
    case One(s) =>
      SequenceIsClean(c, e, s);
      CleanHasNoEnd(e);
      NoStartInside(e, rest, p);
      assert (e + rest)[0..] == e + rest;
      SequenceLeads(c, g, o, lo, e, s, rest, k);
    case More(f, s) =>
      hide IsAlternates;
      var x, y := SplitAlternates(c, e, f, s);
      var tail := [ALT] + (y + rest);
      AroundBar(x, y, rest);
      if p <= |x| {
        AlternatesLead(c, g, o, lo, x, f, tail, p, k);
      } else {
        StartAfterBar(e, |x|, rest, p);
        SequenceLeads(c, g, o, lo, y, s, rest, k);
      }
  }

  lemma CleanHasNoEnd(e: seq<Element>)
    requires Clean(e)
    ensures NoEnd(e)
  {
  }

  lemma AroundBar(x: seq<Element>, y: seq<Element>, rest: seq<Element>)
    ensures (x + [ALT] + y) + rest == x + ([ALT] + (y + rest)) && AtEnd([ALT] + (y + rest))
    ensures ((x + [ALT] + y) + rest)[|x| + 1..] == y + rest && (x + [ALT] + y)[|x| + 1..] == y
  {
  }

  lemma RuleLeads(c: Emitted, g: seq<Src.RuleDef>, o: TreeOrder, lo: LeftOrder, rule: Rule, a: Src.Alternates, p: nat,
                  k: nat)
    requires Follows(c, g, o, lo) && IsRule(c, rule, a) && NamesDefined(g, Src.AlternatesNames(a))
    requires AlternatesTop(a, o) <= k && IsAltStart(rule, p)
    ensures LeadsBelow(rule[p..], lo, k) && (AllNullable(rule[p..], lo) ==> AlternatesNullable(a, o))
  {
    var e := rule[..|rule| - 1];
    assert rule == e + [END];
    AlternatesLead(c, g, o, lo, e, a, [END], p, k);
  }

  /** The rule synthesised for a repetition. */
  lemma RepeatLeads(c: Emitted, g: seq<Src.RuleDef>, o: TreeOrder, lo: LeftOrder, y: Src.Item, op: Src.Op, v: nat,
                    body: seq<Element>, p: nat)
    requires Follows(c, g, o, lo) && IsItem(c, body, y) && NamesDefined(g, Src.ItemNames(y)) && v < |lo.rank|
    requires RepeatsProperly(Src.Repeat(y, op), o) && IsAltStart(RepeatRule(body, op, v), p)
    ensures LeadsBelow(RepeatRule(body, op, v)[p..], lo, ItemTop(y, o))
    ensures AllNullable(RepeatRule(body, op, v)[p..], lo) ==> ItemNullable(Src.Repeat(y, op), o)
  {
    hide Follows, IsItem, LeadsBelow, AllNullable, ItemTop, NamesDefined, Clean;
    var self := if op.Opt? then [] else [Element(RuleRef, v)];
    var second := if op.Plus? then body else [];
    var rule, rest := RepeatRule(body, op, v), self + [ALT] + second + [END];
    ItemIsClean(c, body, y);
    CleanHasNoEnd(body);
    assert rule == body + rest;
    EndLeads([END], lo, ItemTop(y, o));
    if op.Opt? {
      EndLeads(rest, lo, ItemTop(y, o));
    }
    if p == 0 {
      assert rule[0..] == body + rest;
      ItemLeads(c, g, o, lo, body, y, rest, ItemTop(y, o));
    } else {
      RepeatSecond(body, op, v, p);
      ItemLeads(c, g, o, lo, body, y, [END], ItemTop(y, o));
    }
  }

  lemma RepeatSecond(body: seq<Element>, op: Src.Op, v: nat, p: nat)
    requires NoEnd(body) && IsAltStart(RepeatRule(body, op, v), p) && p > 0
    ensures RepeatRule(body, op, v)[p..] == (if op.Plus? then body else []) + [END]
  {
    var first := body + if op.Opt? then [] else [Element(RuleRef, v)];
    var second := if op.Plus? then body else [];
    var rule := RepeatRule(body, op, v);
    assert rule == first + [ALT] + second + [END];
    assert forall i | 0 <= i < |first| :: rule[i] == first[i] && !first[i].kind.Alt?;
    assert forall i | 0 <= i < |second| :: rule[|first| + 1 + i] == second[i];
    assert rule[p - 1].kind.Alt?;
    assert p - 1 == |first|;
  }

  // ---------------------------------------------------------------- The rules are not left-recursive

  ghost function NameOf(c: Emitted, r: nat): (name: string)
    requires HasId(c.ids, r)
    ensures name in c.ids && c.ids[name] == r
  {
    var name :| name in c.ids && c.ids[name] == r; name
  }

  ghost function RuleRank(c: Emitted, o: TreeOrder, r: nat): nat
    requires r in c.synthesised || HasId(c.ids, r)
  {
    if r in c.synthesised then (if ItemTop(c.synthesised[r], o) == 0 then 0 else ItemTop(c.synthesised[r], o) - 1)
    else NameRank(NameOf(c, r), o)
  }

  ghost predicate RuleNullable(c: Emitted, o: TreeOrder, r: nat)
    requires r in c.synthesised || HasId(c.ids, r)
  {
    if r in c.synthesised then ItemNullable(c.synthesised[r], o) else NameOf(c, r) in o.nullable
  }

  ghost function CompiledOrder(c: Emitted, o: TreeOrder): (lo: LeftOrder)
    requires forall r: nat | r < |c.rules| :: HasId(c.ids, r)
  {
    LeftOrder(set r: nat | r < |c.rules| && RuleNullable(c, o, r),
      seq(|c.rules|, r requires 0 <= r < |c.rules| => RuleRank(c, o, r)))
  }

  /** When every name that occurs is defined, the rules are well-formed for the recogniser. */
  lemma CompiledIsWellFormed(c: Emitted, g: seq<Src.RuleDef>)
    requires StateOk(c) && Compiled(c, g) && AllDefined(g)
    ensures |c.rules| == |c.ids| && WellFormed(c.rules)
  {
    hide Sound, IsRule, WellFormedRule, IsKey;
    forall r: nat | r < |c.ids|
      ensures WellFormedRule(RuleAt(c.rules, r), |c.ids|)
    {
      assert HasId(c.ids, r);
      var name := NameOf(c, r);
      if IsWordName(name) {
        assert name in Src.GrammarNames(g);
        RuleIsWellFormed(c, RuleAt(c.rules, r), Body(g, name));
      }
    }
    if |c.ids| > 0 {
      LongRule(c.rules, |c.ids| - 1, |c.ids|);
    }
    assert forall r | 0 <= r < |c.rules| :: RuleAt(c.rules, r) == c.rules[r];
  }

  lemma LongRule(rules: Rules, r: nat, n: nat)
    requires WellFormedRule(RuleAt(rules, r), n)
    ensures r < |rules|
  {
  }

  lemma CompiledOrderFollows(c: Emitted, g: seq<Src.RuleDef>, o: TreeOrder)
    requires StateOk(c) && Compiled(c, g) && |c.rules| == |c.ids|
    ensures (forall r: nat | r < |c.rules| :: HasId(c.ids, r)) && Follows(c, g, o, CompiledOrder(c, o))
  {
    hide IsRule, WellFormedRule, New, Sound, IsItem, ItemTop, ItemNullable;
    var lo := CompiledOrder(c, o);
    forall r | r in c.synthesised
      ensures FollowsItem(c.synthesised[r], o, lo, r)
    {
      SynthesisedTop(c, r, o);
    }
    forall name | Defines(g, name) && name in c.ids
      ensures c.ids[name] < |lo.rank| && FollowsName(name, o, lo, c.ids[name])
    {
      assert NameOf(c, c.ids[name]) == name;
      assert IsWordName(name);
    }
  }

  lemma SynthesisedTop(c: Emitted, r: nat, o: TreeOrder)
    requires Sound(c) && r in c.synthesised
    ensures ItemTop(c.synthesised[r], o) > 0
  {
    var x := c.synthesised[r];
    assert IsItem(c, [Element(RuleRef, r)], x);
    match x
    case Literal(cs) => if cs != [] { FirstChar(cs); }
    case Class(neg, rs) => if rs != [] { FirstRange(neg, rs); }
    case _ =>
  }

  lemma {:induction false} BodyNames(g: seq<Src.RuleDef>, name: string)
    requires Defines(g, name)
    ensures Src.AlternatesNames(Body(g, name)) <= Src.GrammarNames(g)
  {
    if g[|g| - 1].name != name {
      BodyNames(g[..|g| - 1], name);
    }
  }

  lemma {:induction false} ItemPartNames(x: Src.Item, y: Src.Item)
    requires y in Src.ItemParts(x)
    ensures Src.ItemNames(y) <= Src.ItemNames(x) && (y.Group? || y.Repeat?)
    decreases x
  {
    if y != x {
      match x
      case Group(a) => AlternatesPartNames(a, y);
      case Repeat(z, _) => ItemPartNames(z, y);
    }
  }

  lemma {:induction false} SequencePartNames(s: Src.Sequence, y: Src.Item)
    requires y in Src.SequenceParts(s)
    ensures Src.ItemNames(y) <= Src.SequenceNames(s) && (y.Group? || y.Repeat?)
    decreases s
  {
    if y in Src.SequenceParts(s.init) {
      SequencePartNames(s.init, y);
    } else {
      ItemPartNames(s.last, y);
    }
  }

  lemma {:induction false} AlternatesPartNames(a: Src.Alternates, y: Src.Item)
    requires y in Src.AlternatesParts(a)
    ensures Src.ItemNames(y) <= Src.AlternatesNames(a) && (y.Group? || y.Repeat?)
    decreases a
  {
    match a
    case One(s) => SequencePartNames(s, y);
    case More(f, s) =>
      if y in Src.AlternatesParts(f) {
        AlternatesPartNames(f, y);
      } else {
        SequencePartNames(s, y);
      }
  }

  lemma {:induction false} PartNames(g: seq<Src.RuleDef>, y: Src.Item)
    requires y in Src.GrammarParts(g)
    ensures Src.ItemNames(y) <= Src.GrammarNames(g) && (y.Group? || y.Repeat?)
  {
    var init, last := g[..|g| - 1], g[|g| - 1];
    if y in Src.GrammarParts(init) {
      PartNames(init, y);
    } else {
      AlternatesPartNames(last.alts, y);
    }
  }

  /** An alternate of a synthesised rule. */
  lemma SynthesisedLeads(c: Emitted, g: seq<Src.RuleDef>, o: TreeOrder, lo: LeftOrder, r: nat, p: nat)
    requires Follows(c, g, o, lo) && Sound(c) && r in c.synthesised && r < |c.rules| && IsAltStart(c.rules[r], p)
    requires NamesDefined(g, Src.ItemNames(c.synthesised[r])) && RepeatsProperly(c.synthesised[r], o)
    requires c.synthesised[r].Group? || c.synthesised[r].Repeat?
    ensures LeadsBelow(c.rules[r][p..], lo, lo.rank[r]) && (AllNullable(c.rules[r][p..], lo) ==> r in lo.nullable)
  {
    hide LeadsBelow, AllNullable, RepeatRule, IsRule, Follows;
    var x := c.synthesised[r];
    assert IsItem(c, [Element(RuleRef, r)], x);
    FollowsAt(c, g, o, lo, r);
    match x
    case Group(a) => RuleLeads(c, g, o, lo, c.rules[r], a, p, lo.rank[r]);
    case Repeat(y, op) =>
      var body :| IsItem(c, body, y) && RuleAt(c.rules, r) == RepeatRule(body, op, r);
      RepeatLeads(c, g, o, lo, y, op, r, body, p);
  }

  lemma FollowsAt(c: Emitted, g: seq<Src.RuleDef>, o: TreeOrder, lo: LeftOrder, r: nat)
    requires Follows(c, g, o, lo) && r in c.synthesised
    ensures r < |lo.rank| && FollowsItem(c.synthesised[r], o, lo, r)
  {
  }

  /** An alternate of any rule. */
  lemma EveryRuleLeads(c: Emitted, g: seq<Src.RuleDef>, o: TreeOrder, lo: LeftOrder, r: nat, p: nat)
    requires StateOk(c) && Compiled(c, g) && AllDefined(g) && IsTreeOrder(g, o) && Follows(c, g, o, lo)
    requires r < |c.rules| == |c.ids| && IsAltStart(c.rules[r], p)
    ensures LeadsBelow(c.rules[r][p..], lo, lo.rank[r]) && (AllNullable(c.rules[r][p..], lo) ==> r in lo.nullable)
  {
    hide LeadsBelow, AllNullable, IsRule, Sound, WellFormedRule, IsKey;
    if r in c.synthesised {
      PartNames(g, c.synthesised[r]);
      SynthesisedLeads(c, g, o, lo, r, p);
    } else {
      assert HasId(c.ids, r);
      var name := NameOf(c, r);
      assert IsWordName(name) && name in Src.GrammarNames(g);
      BodyNames(g, name);
      RuleLeads(c, g, o, lo, c.rules[r], Body(g, name), p, lo.rank[r]);
    }
  }

  /** Rules compiled from a grammar without left recursion are not left-recursive. */
  lemma CompiledIsNotLeftRecursive(c: Emitted, g: seq<Src.RuleDef>)
    requires StateOk(c) && Compiled(c, g) && AllDefined(g) && NoLeftRecursion(g)
    ensures NotLeftRecursive(c.rules)
  {
    hide StateOk, Compiled, Follows, LeadsBelow, AllNullable, IsTreeOrder;
    CompiledIsWellFormed(c, g);
    var o :| IsTreeOrder(g, o);
    CompiledOrderFollows(c, g, o);
    var lo := CompiledOrder(c, o);
    forall r: nat, p: nat | r < |c.rules| && IsAltStart(c.rules[r], p)
      ensures LeadsBelow(c.rules[r][p..], lo, lo.rank[r])
      ensures AllNullable(c.rules[r][p..], lo) ==> r in lo.nullable
    {
      EveryRuleLeads(c, g, o, lo, r, p);
    }
    assert IsLeftOrder(c.rules, lo);
  }

  /** From notation to recogniser: for every grammar whose names are defined and that is not left-recursive, the stacks
      started on the compiled rule of a name accept exactly what the name means. */
  lemma CompiledGrammarRecognises(c: Emitted, g: seq<Src.RuleDef>, name: string, w: Word)
    requires StateOk(c) && Compiled(c, g) && ProperGrammar(g) && AllDefined(g) && NoLeftRecursion(g) && Defines(g, name)
    ensures WellFormed(c.rules) && NotLeftRecursive(c.rules) && name in c.ids && c.ids[name] < |c.rules|
    ensures AllAdvanced(c.rules, Init(c.rules, c.ids[name]))
    ensures Means(g, name, w) <==> [] in AcceptWord(c.rules, Init(c.rules, c.ids[name]), w)
  {
    hide StateOk, Means, IsTreeOrder, AllDefined, NotLeftRecursive, WellFormed, New;
    CompiledIsWellFormed(c, g);
    CompiledIsNotLeftRecursive(c, g);
    NameHasRule(c, g, name);
    ImplementsKeepsMeaning(c, g, name, w);
    RecognisesExactly(c.rules, c.ids[name], w);
  }

  lemma NameHasRule(c: Emitted, g: seq<Src.RuleDef>, name: string)
    requires Compiled(c, g) && Defines(g, name)
    ensures name in c.ids && c.ids[name] < |c.rules|
  {
  }

  lemma RepeatedEmptyHasNoOrder(rules: Rules, u: nat, v: nat, a: nat, o: LeftOrder)
    requires u < |rules| && v < |rules| && |rules[v]| > 2 && rules[v][0] == Element(RuleRef, u) &&
      rules[v][1] == Element(RuleRef, v)
    requires IsAltStart(rules[u], a) && IsEndOfSequence(rules[u][a])
    ensures !IsLeftOrder(rules, o)
  {
    var s, t := rules[v][0..], rules[u][a..];
    assert s[0] == Element(RuleRef, u) && s[1..][0] == Element(RuleRef, v);
    assert AllNullable(t, o);
    if IsLeftOrder(rules, o) {
      OrderAt(rules, o, u, a);
      OrderAt(rules, o, v, 0);
    }
  }

  lemma OrderAt(rules: Rules, o: LeftOrder, r: nat, a: nat)
    requires IsLeftOrder(rules, o) && r < |rules| && IsAltStart(rules[r], a)
    ensures r < |o.rank| && LeadsBelow(rules[r][a..], o, o.rank[r]) &&
      (AllNullable(rules[r][a..], o) ==> r in o.nullable)
  {
  }

  /** A repetition of something that may be empty: expanding its rule comes back to the stack it started from. */
  lemma RepeatedEmptyLoops(rules: Rules, u: nat, v: nat, op: Src.Op, a: nat)
    requires WellFormed(rules) && u < |rules| && v < |rules| && !op.Opt?
    requires rules[v] == RepeatRule([Element(RuleRef, u)], op, v)
    requires IsAltStart(rules[u], a) && IsEndOfSequence(rules[u][a])
    ensures !NotLeftRecursive(rules)
    ensures RefOnTop(rules, [Pos(v, 0)]) && RefOnTop(rules, [Pos(v, 1)])
    ensures [Pos(v, 1)] in Expansions(rules, [Pos(v, 0)]) && [Pos(v, 0)] in Expansions(rules, [Pos(v, 1)])
  {
    assert rules[v][0] == Element(RuleRef, u) && rules[v][1] == Element(RuleRef, v) && rules[v][2] == ALT;
    forall o
      ensures !IsLeftOrder(rules, o)
    {
      RepeatedEmptyHasNoOrder(rules, u, v, a, o);
    }
    var first, second := [Pos(v, 0)], [Pos(v, 1)];
    AlternatesAreExpansions(rules, first, a);
    AlternatesAreExpansions(rules, second, 0);
    assert Top(first) == Pos(v, 0) && Pop(first) == [] && Top(second) == Pos(v, 1) && Pop(second) == [];
    assert TopRule(rules, first) == u && TopRule(rules, second) == v;
    assert After(rules, Pos(v, 0)) == Pos(v, 1) && After(rules, Pos(v, 1)) == Pos(v, 2);
    assert Expand(rules, first, Pos(u, a)) == second && Expand(rules, second, Pos(v, 0)) == first;
  }
}
