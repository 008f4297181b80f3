/** The EBNF notation of grammar-parser.cpp: its syntax trees, their tokens, and a reader from tokens to trees.

Tokens stand for what is left of the text after white space and comments are skipped; `Eol` is a line end
that closes a rule. */
module GrammarSource {

  datatype Range = Range(lo: nat, hi: nat, single: bool)

  datatype Op = Star | Plus | Opt

  datatype Item =
    | Literal(chars: seq<nat>)
    | Class(negated: bool, ranges: seq<Range>)
    | Ref(name: string)
    | Group(alts: Alternates)
    | Repeat(item: Item, op: Op)

  datatype Sequence = Empty | Snoc(init: Sequence, last: Item)

  datatype Alternates = One(only: Sequence) | More(first: Alternates, final: Sequence)

  datatype RuleDef = RuleDef(name: string, alts: Alternates)

  datatype Token =
    | TLiteral(chars: seq<nat>)
    | TClass(negated: bool, ranges: seq<Range>)
    | TName(name: string)
    | TOpen
    | TClose
    | TOp(op: Op)
    | TBar
    | TDefine
    | TEol

  // ---------------------------------------------------------------- What a tree mentions

  function ItemNames(x: Item): set<string> {
    match x
    case Ref(n) => {n}
    case Group(a) => AlternatesNames(a)
    case Repeat(y, _) => ItemNames(y)
    case _ => {}
  }

  function SequenceNames(s: Sequence): set<string> {
    if s.Empty? then {} else SequenceNames(s.init) + ItemNames(s.last)
  }

  function AlternatesNames(a: Alternates): set<string> {
    match a
    case One(s) => SequenceNames(s)
    case More(f, s) => AlternatesNames(f) + SequenceNames(s)
  }

  /** The groups and repetitions in an item, itself among them. */
  function ItemParts(x: Item): set<Item> {
    match x
    case Group(a) => AlternatesParts(a) + {x}
    case Repeat(y, _) => ItemParts(y) + {x}
    case _ => {}
  }

  function SequenceParts(s: Sequence): set<Item> {
    if s.Empty? then {} else SequenceParts(s.init) + ItemParts(s.last)
  }

  function AlternatesParts(a: Alternates): set<Item> {
    match a
    case One(s) => SequenceParts(s)
    case More(f, s) => AlternatesParts(f) + SequenceParts(s)
  }

  /** The rules that a grammar names, by defining them or by referring to them. */
  function GrammarNames(g: seq<RuleDef>): set<string> {
    if g == [] then {} else GrammarNames(g[..|g| - 1]) + {g[|g| - 1].name} + AlternatesNames(g[|g| - 1].alts)
  }

  function GrammarParts(g: seq<RuleDef>): set<Item> {
    if g == [] then {} else GrammarParts(g[..|g| - 1]) + AlternatesParts(g[|g| - 1].alts)
  }

  // ---------------------------------------------------------------- Trees to tokens

  /** An empty literal or class leaves nothing behind that a repetition could apply to. */
  predicate EmitsNothing(x: Item) {
    (x.Literal? && x.chars == []) || (x.Class? && x.ranges == [])
  }

  function ItemTokens(x: Item): (ts: seq<Token>)
    ensures |ts| > 0
  {
    match x
    case Literal(cs) => [TLiteral(cs)]
    case Class(neg, rs) => [TClass(neg, rs)]
    case Ref(n) => [TName(n)]
    case Group(a) => [TOpen] + AlternatesTokens(a) + [TClose]
    case Repeat(y, op) => ItemTokens(y) + [TOp(op)]
  }

  function SequenceTokens(s: Sequence): seq<Token> {
    match s
    case Empty => []
    case Snoc(i, x) => SequenceTokens(i) + ItemTokens(x)
  }

  function AlternatesTokens(a: Alternates): seq<Token> {
    match a
    case One(s) => SequenceTokens(s)
    case More(f, s) => AlternatesTokens(f) + [TBar] + SequenceTokens(s)
  }

  function RuleTokens(d: RuleDef): seq<Token> {
    [TName(d.name), TDefine] + AlternatesTokens(d.alts) + [TEol]
  }

  function GrammarTokens(g: seq<RuleDef>): seq<Token> {
    if g == [] then [] else GrammarTokens(g[..|g| - 1]) + RuleTokens(g[|g| - 1])
  }

  /** Repetitions apply to something. */
  predicate ItemOk(x: Item) {
    match x
    case Group(a) => AlternatesOk(a)
    case Repeat(y, _) => ItemOk(y) && !EmitsNothing(y)
    case _ => true
  }

  predicate SequenceOk(s: Sequence) {
    s.Snoc? ==> SequenceOk(s.init) && ItemOk(s.last)
  }

  predicate AlternatesOk(a: Alternates) {
    match a
    case One(s) => SequenceOk(s)
    case More(f, s) => AlternatesOk(f) && SequenceOk(s)
  }

  // ---------------------------------------------------------------- Tokens to trees

  datatype Read<T> = Fail | Done(value: T, pos: nat)

  /** Reads items from `pos` on until a token that cannot go on the sequence `acc`. */
  function ReadSequence(ts: seq<Token>, pos: nat, acc: Sequence): (r: Read<Sequence>)
    requires pos <= |ts|
    ensures r.Done? ==> pos <= r.pos <= |ts|
    decreases |ts| - pos, 0
  {
    if pos == |ts| then Done(acc, pos)
    else match ts[pos]
      case TLiteral(cs) => ReadSequence(ts, pos + 1, Snoc(acc, Literal(cs)))
      case TClass(neg, rs) => ReadSequence(ts, pos + 1, Snoc(acc, Class(neg, rs)))
      case TName(n) => ReadSequence(ts, pos + 1, Snoc(acc, Ref(n)))
      case TOpen =>
        var a := ReadAlternates(ts, pos + 1);
        if a.Fail? || a.pos == |ts| || ts[a.pos] != TClose then Fail
        else ReadSequence(ts, a.pos + 1, Snoc(acc, Group(a.value)))
      case TOp(op) =>
        if acc.Empty? || EmitsNothing(acc.last) then Fail
        else ReadSequence(ts, pos + 1, Snoc(acc.init, Repeat(acc.last, op)))
      case _ => Done(acc, pos)
  }

  function ReadAlternates(ts: seq<Token>, pos: nat): (r: Read<Alternates>)
    requires pos <= |ts|
    ensures r.Done? ==> pos <= r.pos <= |ts|
    decreases |ts| - pos, 2
  {
    var s := ReadSequence(ts, pos, Empty);
    if s.Fail? then Fail else ReadMore(ts, s.pos, One(s.value))
  }

  function ReadMore(ts: seq<Token>, pos: nat, acc: Alternates): (r: Read<Alternates>)
    requires pos <= |ts|
    ensures r.Done? ==> pos <= r.pos <= |ts|
    decreases |ts| - pos, 1
  {
    if pos < |ts| && ts[pos] == TBar then
      var s := ReadSequence(ts, pos + 1, Empty);
      if s.Fail? then Fail else ReadMore(ts, s.pos, More(acc, s.value))
    else Done(acc, pos)
  }

  function ReadRule(ts: seq<Token>, pos: nat): (r: Read<RuleDef>)
    requires pos <= |ts|
    ensures r.Done? ==> pos < r.pos <= |ts|
  {
    if pos + 2 > |ts| || !ts[pos].TName? || ts[pos + 1] != TDefine then Fail
    else
      var a := ReadAlternates(ts, pos + 2);
      if a.Fail? then Fail
      else if a.pos == |ts| then Done(RuleDef(ts[pos].name, a.value), a.pos)
      else if ts[a.pos] == TEol then Done(RuleDef(ts[pos].name, a.value), a.pos + 1)
      else Fail
  }

  function ReadGrammar(ts: seq<Token>, pos: nat, acc: seq<RuleDef>): (r: Read<seq<RuleDef>>)
    requires pos <= |ts|
    decreases |ts| - pos
  {
    if pos == |ts| then Done(acc, pos)
    else
      var d := ReadRule(ts, pos);
      if d.Fail? then Fail else ReadGrammar(ts, d.pos, acc + [d.value])
  }

  // ---------------------------------------------------------------- The reader inverts the printer

  /** `part` stands in `ts` at `pos`. */
  predicate At(ts: seq<Token>, pos: nat, part: seq<Token>) {
    pos + |part| <= |ts| && ts[pos..pos + |part|] == part
  }

  lemma AtParts(ts: seq<Token>, pos: nat, x: seq<Token>, y: seq<Token>)
    requires At(ts, pos, x + y)
    ensures At(ts, pos, x) && At(ts, pos + |x|, y)
  {
    var t := ts[pos..pos + |x + y|];
    assert ts[pos..pos + |x|] == t[..|x|] == x;
    assert ts[pos + |x|..pos + |x| + |y|] == t[|x|..] == y;
  }

  /** The token at `pos` (if any) cannot go on a sequence. */
  predicate Stops(ts: seq<Token>, pos: nat) {
    pos == |ts| || (pos < |ts| && (ts[pos].TClose? || ts[pos].TBar? || ts[pos].TDefine? || ts[pos].TEol?))
  }

  lemma HeadToken(ts: seq<Token>, pos: nat, part: seq<Token>)
    requires At(ts, pos, part) && |part| > 0
    ensures pos < |ts| && ts[pos] == part[0]
  {
    assert ts[pos..pos + |part|][0] == part[0];
  }

  lemma StopsHere(ts: seq<Token>, pos: nat, acc: Sequence)
    requires Stops(ts, pos)
    ensures ReadSequence(ts, pos, acc) == Done(acc, pos)
  {
  }

  lemma {:induction false} ReadsItem(ts: seq<Token>, pos: nat, acc: Sequence, x: Item)
    requires At(ts, pos, ItemTokens(x)) && ItemOk(x)
    ensures ReadSequence(ts, pos, acc) == ReadSequence(ts, pos + |ItemTokens(x)|, Snoc(acc, x))
    decreases x, 1
  {
    match x
    case Group(a) => ReadsGroup(ts, pos, acc, a);
    case Repeat(y, op) =>
      AtParts(ts, pos, ItemTokens(y), [TOp(op)]);
      HeadToken(ts, pos + |ItemTokens(y)|, [TOp(op)]);
      ReadsItem(ts, pos, acc, y);
    case _ => HeadToken(ts, pos, ItemTokens(x));
  }

  lemma {:induction false} ReadsGroup(ts: seq<Token>, pos: nat, acc: Sequence, a: Alternates)
    requires At(ts, pos, [TOpen] + AlternatesTokens(a) + [TClose]) && AlternatesOk(a)
    ensures ReadSequence(ts, pos, acc) == ReadSequence(ts, pos + |AlternatesTokens(a)| + 2, Snoc(acc, Group(a)))
    decreases a, 2
  {
    var close := pos + 1 + |AlternatesTokens(a)|;
    AtParts(ts, pos, [TOpen] + AlternatesTokens(a), [TClose]);
    AtParts(ts, pos, [TOpen], AlternatesTokens(a));
    HeadToken(ts, pos, [TOpen]);
    HeadToken(ts, close, [TClose]);
    ReadsAlternates(ts, pos + 1, a);
    assert ReadMore(ts, close, a) == Done(a, close);
  }

  lemma {:induction false} ReadsSequence(ts: seq<Token>, pos: nat, s: Sequence)
    requires At(ts, pos, SequenceTokens(s)) && SequenceOk(s)
    ensures ReadSequence(ts, pos, Empty) == ReadSequence(ts, pos + |SequenceTokens(s)|, s)
    decreases s, 1
  {
    hide Stops, ItemTokens, ItemOk, ReadSequence;
    if s.Snoc? {
      AtParts(ts, pos, SequenceTokens(s.init), ItemTokens(s.last));
      ReadsSequence(ts, pos, s.init);
      ReadsItem(ts, pos + |SequenceTokens(s.init)|, s.init, s.last);
    }
  }

  lemma MoreParts(ts: seq<Token>, pos: nat, f: Alternates, s: Sequence)
    requires At(ts, pos, AlternatesTokens(More(f, s)))
    ensures var bar := pos + |AlternatesTokens(f)|;
      && At(ts, pos, AlternatesTokens(f)) && bar < |ts| && ts[bar] == TBar && Stops(ts, bar)
      && At(ts, bar + 1, SequenceTokens(s)) && bar + 1 + |SequenceTokens(s)| == pos + |AlternatesTokens(More(f, s))|
  {
    AtParts(ts, pos, AlternatesTokens(f) + [TBar], SequenceTokens(s));
    AtParts(ts, pos, AlternatesTokens(f), [TBar]);
    HeadToken(ts, pos + |AlternatesTokens(f)|, [TBar]);
  }

  lemma {:induction false} ReadsAlternates(ts: seq<Token>, pos: nat, a: Alternates)
    requires At(ts, pos, AlternatesTokens(a)) && AlternatesOk(a)
    requires Stops(ts, pos + |AlternatesTokens(a)|)
    ensures ReadAlternates(ts, pos) == ReadMore(ts, pos + |AlternatesTokens(a)|, a)
    decreases a, 1
  {
    hide ReadSequence, ReadMore, Stops, SequenceTokens, SequenceOk;
    match a
    case One(s) =>
      ReadsSequence(ts, pos, s);
      StopsHere(ts, pos + |AlternatesTokens(a)|, s);
    case More(f, s) =>
      MoreParts(ts, pos, f, s);
      ReadsAlternates(ts, pos, f);
      ReadsSequence(ts, pos + |AlternatesTokens(f)| + 1, s);
      MoreStep(ts, pos + |AlternatesTokens(f)|, pos + |AlternatesTokens(a)|, f, s);
  }

  lemma MoreStep(ts: seq<Token>, bar: nat, end: nat, f: Alternates, s: Sequence)
    requires bar < end <= |ts| && ts[bar] == TBar && Stops(ts, end)
    requires ReadSequence(ts, bar + 1, Empty) == ReadSequence(ts, end, s)
    ensures ReadMore(ts, bar, f) == ReadMore(ts, end, More(f, s))
  {
    StopsHere(ts, end, s);
  }

  lemma ReadsRule(ts: seq<Token>, pos: nat, d: RuleDef)
    requires At(ts, pos, RuleTokens(d)) && AlternatesOk(d.alts)
    ensures ReadRule(ts, pos) == Done(d, pos + |RuleTokens(d)|)
  {
    var body := AlternatesTokens(d.alts);
    var eol := pos + 2 + |body|;
    AtParts(ts, pos, [TName(d.name), TDefine] + body, [TEol]);
    AtParts(ts, pos, [TName(d.name), TDefine], body);
    AtParts(ts, pos, [TName(d.name)], [TDefine]);
    HeadToken(ts, pos, [TName(d.name)]);
    HeadToken(ts, pos + 1, [TDefine]);
    HeadToken(ts, eol, [TEol]);
    ReadsAlternates(ts, pos + 2, d.alts);
    assert ReadMore(ts, eol, d.alts) == Done(d.alts, eol);
  }

  lemma {:induction false} ReadsGrammarFrom(ts: seq<Token>, g: seq<RuleDef>)
    requires At(ts, 0, GrammarTokens(g)) && forall i | 0 <= i < |g| :: AlternatesOk(g[i].alts)
    ensures ReadGrammar(ts, 0, []) == ReadGrammar(ts, |GrammarTokens(g)|, g)
  {
    if g != [] {
      var init, last := g[..|g| - 1], g[|g| - 1];
      AtParts(ts, 0, GrammarTokens(init), RuleTokens(last));
      ReadsGrammarFrom(ts, init);
      ReadsRule(ts, |GrammarTokens(init)|, last);
      assert init + [last] == g;
    }
  }

  /** Reading the tokens of a grammar gives the grammar back. */
  lemma ReadInvertsPrint(g: seq<RuleDef>)
    requires forall i | 0 <= i < |g| :: AlternatesOk(g[i].alts)
    ensures ReadGrammar(GrammarTokens(g), 0, []) == Done(g, |GrammarTokens(g)|)
  {
    ReadsGrammarFrom(GrammarTokens(g), g);
  }

  // ---------------------------------------------------------------- What is read was printed

  lemma SnocIsPrinted(ts: seq<Token>, pos: nat, mid: nat, acc: Sequence, x: Item)
    requires pos <= mid <= |ts| && ItemTokens(x) == ts[pos..mid] && SequenceOk(acc) && ItemOk(x)
    ensures SequenceOk(Snoc(acc, x)) && SequenceTokens(Snoc(acc, x)) == SequenceTokens(acc) + ts[pos..mid]
  {
  }

  lemma RepeatIsPrinted(ts: seq<Token>, pos: nat, acc: Sequence, op: Op)
    requires pos < |ts| && ts[pos] == TOp(op) && acc.Snoc? && !EmitsNothing(acc.last) && SequenceOk(acc)
    ensures var next := Snoc(acc.init, Repeat(acc.last, op));
      SequenceOk(next) && SequenceTokens(next) == SequenceTokens(acc) + ts[pos..pos + 1]
  {
    var init, last := SequenceTokens(acc.init), ItemTokens(acc.last);
    assert ts[pos..pos + 1] == [TOp(op)];
    assert init + (last + [TOp(op)]) == (init + last) + [TOp(op)];
  }

  lemma GroupIsPrinted(ts: seq<Token>, pos: nat, close: nat, a: Alternates)
    requires pos < close < |ts| && ts[pos] == TOpen && ts[close] == TClose && AlternatesTokens(a) == ts[pos + 1..close]
    ensures ItemTokens(Group(a)) == ts[pos..close + 1]
  {
  }

  lemma {:induction false} SequenceReadIsPrinted(ts: seq<Token>, pos: nat, acc: Sequence)
    requires pos <= |ts| && SequenceOk(acc) && ReadSequence(ts, pos, acc).Done?
    ensures var r := ReadSequence(ts, pos, acc);
      SequenceOk(r.value) && Stops(ts, r.pos) && SequenceTokens(r.value) == SequenceTokens(acc) + ts[pos..r.pos]
    decreases |ts| - pos, 0
  {
    hide SequenceOk, SequenceTokens, AlternatesTokens, AlternatesOk;
    if pos < |ts| && !Stops(ts, pos) {
      var mid, next := pos + 1, acc;
      if ts[pos].TOp? {
        next := Snoc(acc.init, Repeat(acc.last, ts[pos].op));
        RepeatIsPrinted(ts, pos, acc, ts[pos].op);
      } else {
        var x: Item;
        if ts[pos].TLiteral? {
          x := Literal(ts[pos].chars);
        } else if ts[pos].TClass? {
          x := Class(ts[pos].negated, ts[pos].ranges);
        } else if ts[pos].TName? {
          x := Ref(ts[pos].name);
        } else {
          AlternatesReadIsPrinted(ts, pos + 1);
          var a := ReadAlternates(ts, pos + 1);
          mid, x := a.pos + 1, Group(a.value);
          GroupIsPrinted(ts, pos, a.pos, a.value);
        }
        next := Snoc(acc, x);
        SnocIsPrinted(ts, pos, mid, acc, x);
      }
      SequenceReadStep(ts, pos, mid, acc, next);
    }
  }

  lemma {:induction false} SequenceReadStep(ts: seq<Token>, pos: nat, mid: nat, acc: Sequence, next: Sequence)
    requires pos < mid <= |ts| && SequenceOk(next) && ReadSequence(ts, mid, next).Done?
    requires SequenceTokens(next) == SequenceTokens(acc) + ts[pos..mid]
    ensures var r := ReadSequence(ts, mid, next);
      SequenceOk(r.value) && Stops(ts, r.pos) && SequenceTokens(r.value) == SequenceTokens(acc) + ts[pos..r.pos]
    decreases |ts| - mid, 1
  {
    SequenceReadIsPrinted(ts, mid, next);
    var r := ReadSequence(ts, mid, next);
    assert ts[pos..mid] + ts[mid..r.pos] == ts[pos..r.pos];
  }

  lemma {:induction false} AlternatesReadIsPrinted(ts: seq<Token>, pos: nat)
    requires pos <= |ts| && ReadAlternates(ts, pos).Done?
    ensures var r := ReadAlternates(ts, pos);
      AlternatesOk(r.value) && Stops(ts, r.pos) && AlternatesTokens(r.value) == ts[pos..r.pos]
    decreases |ts| - pos, 2
  {
    var s := ReadSequence(ts, pos, Empty);
    SequenceReadIsPrinted(ts, pos, Empty);
    MoreReadIsPrinted(ts, pos, s.pos, One(s.value));
  }

  lemma {:induction false} MoreReadIsPrinted(ts: seq<Token>, start: nat, pos: nat, acc: Alternates)
    requires start <= pos <= |ts| && AlternatesOk(acc) && Stops(ts, pos) && ReadMore(ts, pos, acc).Done?
    requires AlternatesTokens(acc) == ts[start..pos]
    ensures var r := ReadMore(ts, pos, acc);
      AlternatesOk(r.value) && Stops(ts, r.pos) && AlternatesTokens(r.value) == ts[start..r.pos]
    decreases |ts| - pos, 1
  {
    hide ReadAlternates, ItemTokens;
    if pos < |ts| && ts[pos] == TBar {
      var s := ReadSequence(ts, pos + 1, Empty);
      SequenceReadIsPrinted(ts, pos + 1, Empty);
      assert ts[start..s.pos] == ts[start..pos] + [TBar] + ts[pos + 1..s.pos];
      MoreReadIsPrinted(ts, start, s.pos, More(acc, s.value));
    }
  }

  lemma OneMoreRule(g: seq<RuleDef>, d: RuleDef)
    ensures GrammarTokens(g + [d]) == GrammarTokens(g) + RuleTokens(d)
  {
    assert (g + [d])[..|g|] == g;
  }

  lemma CutIsWhole(ts: seq<Token>, pos: nat)
    requires pos <= |ts|
    ensures ts[..pos] + (ts[pos..|ts|] + [TEol]) == ts + [TEol]
  {
    assert ts[..pos] + ts[pos..] == ts;
  }

  /** What is read is printed as the tokens read, up to the line end of the last rule. */
  lemma {:induction false} GrammarReadIsPrinted(ts: seq<Token>, pos: nat, acc: seq<RuleDef>)
    requires pos <= |ts| && ReadGrammar(ts, pos, acc).Done? && GrammarTokens(acc) == ts[..pos]
    requires forall i | 0 <= i < |acc| :: AlternatesOk(acc[i].alts)
    ensures var g := ReadGrammar(ts, pos, acc).value;
      && (forall i | 0 <= i < |g| :: AlternatesOk(g[i].alts))
      && (GrammarTokens(g) == ts || GrammarTokens(g) == ts + [TEol])
    decreases |ts| - pos
  {
    hide GrammarTokens, RuleTokens, AlternatesOk, ReadAlternates;
    if pos < |ts| {
      var d := ReadRule(ts, pos);
      RuleReadIsPrinted(ts, pos);
      var next := acc + [d.value];
      OneMoreRule(acc, d.value);
      if ReadAlternates(ts, pos + 2).pos == |ts| {
        assert GrammarTokens(next) == ts[..pos] + (ts[pos..d.pos] + [TEol]);
        CutIsWhole(ts, pos);
        assert ReadGrammar(ts, d.pos, next).value == next;
      } else {
        assert GrammarTokens(next) == ts[..pos] + ts[pos..d.pos];
        GrammarReadIsPrinted(ts, d.pos, next);
      }
    }
  }

  lemma RuleReadIsPrinted(ts: seq<Token>, pos: nat)
    requires pos <= |ts| && ReadRule(ts, pos).Done?
    ensures var d := ReadRule(ts, pos);
      && AlternatesOk(d.value.alts)
      && RuleTokens(d.value) == ts[pos..d.pos] + if ReadAlternates(ts, pos + 2).pos == |ts| then [TEol] else []
  {
    var a := ReadAlternates(ts, pos + 2);
    AlternatesReadIsPrinted(ts, pos + 2);
    assert ts[pos..a.pos] == [ts[pos], ts[pos + 1]] + ts[pos + 2..a.pos];
    if a.pos < |ts| {
      assert ts[pos..a.pos + 1] == ts[pos..a.pos] + [TEol];
    }
  }
}
