/** The recursive-descent compiler of grammar-parser.cpp: it reads tokens once, numbers the symbols in the
order in which they are met and writes flat rules, replacing groups and repetitions by synthesised rules. */
module GrammarCompiler {
  import opened GrammarLanguage
  import opened GrammarMeaning
  import opened GrammarAdvance
  import opened GrammarAccept
  import Src = GrammarSource

  // ---------------------------------------------------------------- Names of synthesised rules

  function Decimal(n: nat): (s: string)
    ensures |s| > 0
  {
    if n < 10 then ["0123456789"[n]] else Decimal(n / 10) + ["0123456789"[n % 10]]
  }

  function SynthesisedName(base: string, n: nat): string {
    base + "_" + Decimal(n)
  }

  lemma {:induction false} DecimalIsInjective(n: nat, m: nat)
    requires Decimal(n) == Decimal(m)
    ensures n == m
  {
    var s, t := Decimal(n), Decimal(m);
    DigitsAreDistinct(n % 10, m % 10);
    if n < 10 || m < 10 {
      assert |s| == 1 || |t| == 1;
    } else {
      assert Decimal(n / 10) == s[..|s| - 1] && Decimal(m / 10) == t[..|t| - 1];
      DecimalIsInjective(n / 10, m / 10);
    }
  }

  lemma DigitsAreDistinct(a: nat, b: nat)
    requires a < 10 && b < 10
    ensures "0123456789"[a] == "0123456789"[b] ==> a == b
  {
  }

  /** A synthesised name tells its number, since written names have no underscore. */
  lemma SynthesisedNameIsInjective(base: string, n: nat, base': string, n': nat)
    requires IsWordName(base) && IsWordName(base') && SynthesisedName(base, n) == SynthesisedName(base', n')
    ensures n == n'
  {
    var s, t := SynthesisedName(base, n), SynthesisedName(base', n');
    assert s[|base|] == '_' && t[|base'|] == '_';
    assert forall i | 0 <= i < |base| :: s[i] == base[i] != '_';
    assert forall i | 0 <= i < |base'| :: t[i] == base'[i] != '_';
    assert |base| == |base'|;
    assert s[|base| + 1..] == Decimal(n) && t[|base'| + 1..] == Decimal(n');
    DecimalIsInjective(n, n');
  }

  ghost predicate IsKey(name: string, id: nat) {
    IsWordName(name) || exists base :: IsWordName(base) && name == SynthesisedName(base, id)
  }

  lemma NewKeyIsFresh(ids: map<string, nat>, base: string)
    requires IsWordName(base)
    requires forall name | name in ids :: ids[name] < |ids| && IsKey(name, ids[name])
    ensures SynthesisedName(base, |ids|) !in ids && !IsWordName(SynthesisedName(base, |ids|))
  {
    var key := SynthesisedName(base, |ids|);
    assert key[|base|] == '_';
    if key in ids {
      var base' :| IsWordName(base') && key == SynthesisedName(base', ids[key]);
      SynthesisedNameIsInjective(base, |ids|, base', ids[key]);
    }
  }

  ghost predicate HasId(ids: map<string, nat>, r: nat) {
    exists name :: name in ids && ids[name] == r
  }

  /** Symbol ids are a dense injection. */
  ghost predicate TableOk(ids: map<string, nat>) {
    && (forall name | name in ids :: ids[name] < |ids| && IsKey(name, ids[name]))
    && (forall a, b | a in ids && b in ids :: ids[a] == ids[b] ==> a == b)
    && (forall r: nat | r < |ids| :: HasId(ids, r))
  }

  // ---------------------------------------------------------------- What the parse functions keep

  /** From `c` to `d` the state has only grown: of the earlier ids only `id` may have got another rule, new
      written names have no rule yet, and new synthesised names have theirs. */
  ghost predicate GrowsBut(c: Emitted, d: Emitted, id: nat) {
    && |c.ids| <= |d.ids|
    && (forall name | name in c.ids :: name in d.ids && d.ids[name] == c.ids[name])
    && (forall r | r in c.synthesised :: StandsFor(d, r, c.synthesised[r]))
    && (forall r | r in d.synthesised :: r in c.synthesised || r >= |c.ids|)
    && (forall r: nat | r < |c.ids| && r != id :: RuleAt(d.rules, r) == RuleAt(c.rules, r))
    && (forall name | name in d.ids && name !in c.ids ::
          d.ids[name] == id || if IsWordName(name) then RuleAt(d.rules, d.ids[name]) == []
            else d.ids[name] in d.synthesised)
  }

  ghost predicate Grows(c: Emitted, d: Emitted) {
    GrowsBut(c, d, |d.ids|)
  }

  lemma GrowsTransitive(c: Emitted, d: Emitted, e: Emitted)
    requires Grows(c, d) && Grows(d, e) && IdsBelow(d)
    ensures Grows(c, e)
  {
  }

  lemma GrowsExtends(c: Emitted, d: Emitted, id: nat)
    requires GrowsBut(c, d, id) && IdsBelow(c) && id !in c.synthesised
    ensures Extends(d, c)
  {
  }

  /** A synthesised symbol is numbered, gets its rule, and is then complete. */
  lemma SynthesisGrows(c: Emitted, key: string, d: Emitted, x: Src.Item)
    requires IdsBelow(c) && key !in c.ids && !IsWordName(key) && |c.ids[key := |c.ids|]| == |c.ids| + 1
    requires GrowsBut(c.(ids := c.ids[key := |c.ids|]), d, |c.ids|) && IdsBelow(d) && TableOk(d.ids)
    ensures Grows(c, d.(synthesised := d.synthesised[|c.ids| := x]))
  {
    var more := c.ids[key := |c.ids|];
    assert forall name | name in c.ids :: name in more && more[name] == c.ids[name];
  }

  lemma KeysGrow(ids: map<string, nat>, name: string)
    ensures |ids| <= |ids[name := |ids|]|
  {
    var more := ids[name := |ids|];
    assert more.Keys == ids.Keys + {name};
  }

  lemma NameIsNew(c: Emitted, d: Emitted, name: string)
    requires d.synthesised == c.synthesised && d.ids == if name in c.ids then c.ids else c.ids[name := |c.ids|]
    ensures New(c, d, {name}, {})
  {
  }

  lemma KeyIsNew(c: Emitted, ruleName: string)
    requires TableOk(c.ids) && IsWordName(ruleName)
    ensures var key := SynthesisedName(ruleName, |c.ids|);
      key !in c.ids && !IsWordName(key) && |c.ids[key := |c.ids|]| == |c.ids| + 1
  {
    NewKeyIsFresh(c.ids, ruleName);
    TableGrows(c.ids, SynthesisedName(ruleName, |c.ids|));
  }

  /** The rule of a group is in place: marking it completes the synthesis. */
  lemma GroupIsSynthesised(c: Emitted, key: string, keyed: Emitted, d: Emitted, id: nat, a: Src.Alternates)
    requires IdsBelow(c) && id == |c.ids| && key !in c.ids && !IsWordName(key) && |c.ids[key := id]| == id + 1
    requires keyed == c.(ids := c.ids[key := id]) && GrowsBut(keyed, d, id) && IdsBelow(d) && TableOk(d.ids)
    requires id !in d.synthesised && IsRule(d, RuleAt(d.rules, id), a) &&
      New(keyed, d, Src.AlternatesNames(a), Src.AlternatesParts(a))
    ensures var x := Src.Group(a);
      var e := d.(synthesised := d.synthesised[id := x]);
      && WellFormedRule(RuleAt(d.rules, id), |d.ids|) && key in d.ids && d.ids[key] == id
      && Grows(c, e) && IsItem(e, [Element(RuleRef, id)], x) && New(c, e, Src.ItemNames(x), Src.ItemParts(x))
  {
    hide IsRule, WellFormedRule, TableOk, Grows, IsAlternates, IsKey, New, IsItem;
    var x := Src.Group(a);
    var e := d.(synthesised := d.synthesised[id := x]);
    SynthesisGrows(c, key, d, x);
    RuleIsWellFormed(d, RuleAt(d.rules, id), a);
    GroupIsItem(d, id, a);
    assert key in keyed.ids;
    GroupIsNew(c, key, keyed, d, id, a);
  }

  lemma GroupIsItem(d: Emitted, id: nat, a: Src.Alternates)
    requires id !in d.synthesised && IsRule(d, RuleAt(d.rules, id), a)
    ensures IsItem(d.(synthesised := d.synthesised[id := Src.Group(a)]), [Element(RuleRef, id)], Src.Group(a))
  {
    hide IsRule;
    IsRuleExtends(d, d.(synthesised := d.synthesised[id := Src.Group(a)]), RuleAt(d.rules, id), a);
    assert [Element(RuleRef, id)][0].value == id;
  }

  lemma GroupIsNew(c: Emitted, key: string, keyed: Emitted, d: Emitted, id: nat, a: Src.Alternates)
    requires key !in c.ids && !IsWordName(key) && id !in c.synthesised
    requires keyed == c.(ids := c.ids[key := id]) && New(keyed, d, Src.AlternatesNames(a), Src.AlternatesParts(a))
    ensures var x := Src.Group(a);
      New(c, d.(synthesised := d.synthesised[id := x]), Src.ItemNames(x), Src.ItemParts(x))
  {
  }

  lemma GrowsKeepsId(c: Emitted, d: Emitted, id: nat)
    requires Grows(c, d) && id < |c.ids| && id !in c.synthesised
    ensures id < |d.ids| && id !in d.synthesised
  {
  }

  lemma GrowsSame(c: Emitted)
    ensures Grows(c, c)
  {
  }

  /** What is new in `d`: written names among `names`, and rules synthesised for items among `parts`. */
  ghost predicate New(c: Emitted, d: Emitted, names: set<string>, parts: set<Src.Item>) {
    && (forall name | name in d.ids && name !in c.ids && IsWordName(name) :: name in names)
    && (forall r | r in d.synthesised && r !in c.synthesised :: d.synthesised[r] in parts)
  }

  lemma NewTransitive(c: Emitted, d: Emitted, e: Emitted, names: set<string>, parts: set<Src.Item>, more: set<string>,
                      moreParts: set<Src.Item>)
    requires New(c, d, names, parts) && New(d, e, more, moreParts) && names <= more && parts <= moreParts
    requires forall r | r in d.synthesised :: StandsFor(e, r, d.synthesised[r])
    ensures New(c, e, more, moreParts)
  {
  }

  /** Every synthesised rule represents the item it stands for. */
  ghost predicate Sound(c: Emitted) {
    forall r | r in c.synthesised :: IsItem(c, [Element(RuleRef, r)], c.synthesised[r])
  }

  lemma SoundExtends(c: Emitted, d: Emitted)
    requires Sound(c) && Extends(d, c) &&
      forall r | r in d.synthesised && r !in c.synthesised :: IsItem(d, [Element(RuleRef, r)], d.synthesised[r])
    ensures Sound(d)
  {
    hide IsItem;
    forall r | r in c.synthesised
      ensures IsItem(d, [Element(RuleRef, r)], d.synthesised[r])
    {
      IsItemExtends(c, d, [Element(RuleRef, r)], c.synthesised[r]);
    }
  }

  /** The elements from `base` on are the items read so far, the last of them from `last` on. */
  ghost predicate Building(c: Emitted, base: nat, out: seq<Element>, last: nat, acc: Src.Sequence) {
    && base <= last <= |out|
    && (acc.Empty? ==> last == base == |out|)
    && (acc.Snoc? ==> IsSequence(c, out[base..last], acc.init) && IsItem(c, out[last..], acc.last))
  }

  lemma BuildingIsSequence(c: Emitted, base: nat, out: seq<Element>, last: nat, acc: Src.Sequence)
    requires Building(c, base, out, last, acc)
    ensures IsSequence(c, out[base..], acc)
  {
    if acc.Snoc? {
      var e, k := out[base..], last - base;
      assert e[..k] == out[base..last] && e[k..] == out[last..];
    }
  }

  lemma BuildingExtends(c: Emitted, d: Emitted, base: nat, out: seq<Element>, last: nat, acc: Src.Sequence)
    requires Building(c, base, out, last, acc) && Extends(d, c)
    ensures Building(d, base, out, last, acc)
  {
    if acc.Snoc? {
      IsSequenceExtends(c, d, out[base..last], acc.init);
      IsItemExtends(c, d, out[last..], acc.last);
    }
  }

  lemma BuildingPush(c: Emitted, base: nat, out: seq<Element>, last: nat, acc: Src.Sequence, e: seq<Element>,
                     x: Src.Item)
    requires Building(c, base, out, last, acc) && IsItem(c, e, x)
    ensures Building(c, base, out + e, |out|, Src.Snoc(acc, x))
  {
    BuildingIsSequence(c, base, out, last, acc);
    assert (out + e)[base..|out|] == out[base..] && (out + e)[|out|..] == e;
  }

  lemma BuildingReplace(c: Emitted, base: nat, out: seq<Element>, last: nat, acc: Src.Sequence, e: seq<Element>,
                        x: Src.Item)
    requires Building(c, base, out, last, acc) && acc.Snoc? && IsItem(c, e, x)
    ensures Building(c, base, out[..last] + e, last, Src.Snoc(acc.init, x))
  {
    assert (out[..last] + e)[base..last] == out[base..last] && (out[..last] + e)[last..] == e;
  }

  /** One item has been read and emitted. */
  ghost predicate Stepped(c: Emitted, d: Emitted, ts: seq<Src.Token>, start: nat, acc: Src.Sequence, pos: nat,
                          next: Src.Sequence,
                          base: nat, before: seq<Element>, out: seq<Element>, last: nat)
  {
    && Grows(c, d) && start < pos <= |ts| && Src.ReadSequence(ts, start, acc) == Src.ReadSequence(ts, pos, next)
    && Building(d, base, out, last, next)
    && base <= |before| && base <= |out| && out[..base] == before[..base]
    && Src.SequenceNames(acc) <= Src.SequenceNames(next) && Src.SequenceParts(acc) <= Src.SequenceParts(next)
    && New(c, d, Src.SequenceNames(next), Src.SequenceParts(next))
  }

  lemma NothingNew(c: Emitted, base: nat, out: seq<Element>)
    requires base == |out|
    ensures New(c, c, {}, {}) && Building(c, base, out, base, Src.Empty)
  {
  }

  lemma ReadEnds(ts: seq<Src.Token>, pos: nat, acc: Src.Sequence)
    requires pos <= |ts| && Src.Stops(ts, pos)
    ensures Src.ReadSequence(ts, pos, acc) == Src.Done(acc, pos)
  {
  }

  lemma StepsJoin(c: Emitted, d: Emitted, e: Emitted, ts: seq<Src.Token>, start: nat, acc: Src.Sequence, pos: nat,
                  next: Src.Sequence,
                  base: nat, before: seq<Element>, out: seq<Element>, last: nat)
    requires Grows(c, d) && New(c, d, Src.SequenceNames(acc), Src.SequenceParts(acc)) && IdsBelow(d)
    requires Stepped(d, e, ts, start, acc, pos, next, base, before, out, last)
    ensures Grows(c, e) && New(c, e, Src.SequenceNames(next), Src.SequenceParts(next))
    ensures start < pos <= |ts| && Src.ReadSequence(ts, start, acc) == Src.ReadSequence(ts, pos, next)
    ensures Building(e, base, out, last, next) && base <= |before| && base <= |out| && out[..base] == before[..base]
  {
    hide New, Building, Src.ReadSequence;
    GrowsTransitive(c, d, e);
    NewTransitive(c, d, e, Src.SequenceNames(acc), Src.SequenceParts(acc), Src.SequenceNames(next),
      Src.SequenceParts(next));
  }

  /** An item has been emitted after the others. */
  lemma PushIsStepped(c: Emitted, d: Emitted, ts: seq<Src.Token>, start: nat, acc: Src.Sequence, pos: nat,
                      base: nat, before: seq<Element>, last: nat, e: seq<Element>, x: Src.Item)
    requires Building(c, base, before, last, acc) && IdsBelow(c) && Grows(c, d)
    requires start < pos <= |ts| && Src.ReadSequence(ts, start, acc) == Src.ReadSequence(ts, pos, Src.Snoc(acc, x))
    requires IsItem(d, e, x) && New(c, d, Src.ItemNames(x), Src.ItemParts(x))
    ensures Stepped(c, d, ts, start, acc, pos, Src.Snoc(acc, x), base, before, before + e, |before|)
  {
    hide Grows, IdsBelow, IsItem, IsSequence, Src.ReadSequence;
    BuildingGrows(c, d, base, before, last, acc);
    BuildingPush(d, base, before, last, acc, e, x);
  }

  lemma RepeatMentions(acc: Src.Sequence, op: Src.Op)
    requires acc.Snoc?
    ensures var x := Src.Repeat(acc.last, op);
      var next := Src.Snoc(acc.init, x);
      && Src.SequenceNames(acc) <= Src.SequenceNames(next) && Src.SequenceParts(acc) + {x} <= Src.SequenceParts(next)
  {
    var x := Src.Repeat(acc.last, op);
    assert Src.ItemParts(x) == Src.ItemParts(acc.last) + {x} && Src.ItemNames(x) == Src.ItemNames(acc.last);
  }

  /** The last item has been replaced by its repetition. */
  lemma RepeatIsStepped(c: Emitted, d: Emitted, ts: seq<Src.Token>, start: nat, acc: Src.Sequence, op: Src.Op,
                        base: nat, before: seq<Element>, last: nat, e: seq<Element>)
    requires Building(c, base, before, last, acc) && IdsBelow(c) && Grows(c, d) && acc.Snoc?
    requires var x := Src.Repeat(acc.last, op);
      && start < |ts| && Src.ReadSequence(ts, start, acc) == Src.ReadSequence(ts, start + 1, Src.Snoc(acc.init, x))
      && IsItem(d, e, x) && New(c, d, {}, {x})
    ensures Stepped(c, d, ts, start, acc, start + 1, Src.Snoc(acc.init, Src.Repeat(acc.last, op)), base, before,
      before[..last] + e, last)
  {
    hide Grows, IdsBelow, IsItem, IsSequence, Src.ReadSequence;
    BuildingGrows(c, d, base, before, last, acc);
    var x := Src.Repeat(acc.last, op);
    BuildingReplace(d, base, before, last, acc, e, x);
    assert (before[..last] + e)[..base] == before[..base];
    RepeatMentions(acc, op);
    NewMore(c, d, {}, {x}, Src.SequenceNames(Src.Snoc(acc.init, x)), Src.SequenceParts(Src.Snoc(acc.init, x)));
  }

  lemma GroupIsStepped(c: Emitted, d: Emitted, ts: seq<Src.Token>, start: nat, acc: Src.Sequence,
                       base: nat, before: seq<Element>, last: nat, e: seq<Element>)
    requires Building(c, base, before, last, acc) && IdsBelow(c) && Grows(c, d)
    requires start < |ts| && ts[start].TOpen? && Src.ReadAlternates(ts, start + 1).Done?
    requires var p := Src.ReadAlternates(ts, start + 1).pos; p < |ts| && ts[p] == Src.TClose
    requires var x := Src.Group(Src.ReadAlternates(ts, start + 1).value);
      IsItem(d, e, x) && New(c, d, Src.ItemNames(x), Src.ItemParts(x))
    ensures var a := Src.ReadAlternates(ts, start + 1);
      Stepped(c, d, ts, start, acc, a.pos + 1, Src.Snoc(acc, Src.Group(a.value)), base, before, before + e, |before|)
  {
    hide Grows, IdsBelow, IsItem, Building, New, Stepped;
    var a := Src.ReadAlternates(ts, start + 1);
    PushIsStepped(c, d, ts, start, acc, a.pos + 1, base, before, last, e, Src.Group(a.value));
  }

  lemma PushLiteral(c: Emitted, base: nat, out: seq<Element>, last: nat, acc: Src.Sequence, chars: seq<nat>)
    requires Building(c, base, out, last, acc)
    ensures Building(c, base, out + CharElements(chars), |out|, Src.Snoc(acc, Src.Literal(chars)))
    ensures (out + CharElements(chars))[..base] == out[..base]
  {
    BuildingPush(c, base, out, last, acc, CharElements(chars), Src.Literal(chars));
  }

  lemma PushClass(c: Emitted, base: nat, out: seq<Element>, last: nat, acc: Src.Sequence, neg: bool,
                  ranges: seq<Src.Range>)
    requires Building(c, base, out, last, acc)
    ensures Building(c, base, out + ClassElements(ClassKind(neg), ranges), |out|, Src.Snoc(acc, Src.Class(neg, ranges)))
    ensures (out + ClassElements(ClassKind(neg), ranges))[..base] == out[..base]
  {
    BuildingPush(c, base, out, last, acc, ClassElements(ClassKind(neg), ranges), Src.Class(neg, ranges));
  }

  lemma EmptyItemIsEmpty(c: Emitted, e: seq<Element>, x: Src.Item)
    requires IsItem(c, e, x)
    ensures e == [] <==> Src.EmitsNothing(x)
  {
  }

  // ---------------------------------------------------------------- Represented rules are well-formed

  /** `e` can stand inside a well-formed rule. */
  predicate Shaped(e: seq<Element>, n: nat) {
    && (forall i | 0 <= i < |e| :: !e[i].kind.End?)
    && (forall i | 0 <= i < |e| :: e[i].kind.RuleRef? ==> e[i].value < n)
    && (forall i | 0 <= i < |e| :: e[i].kind.CharRngUpper? ==>
          i > 0 && (e[i - 1].kind.Char? || e[i - 1].kind.CharNot? || e[i - 1].kind.CharAlt?))
    && (forall i | 0 <= i < |e| :: e[i].kind.CharAlt? ==>
          i > 0 && (e[i - 1].kind.Char? || e[i - 1].kind.CharNot? || e[i - 1].kind.CharAlt? ||
            e[i - 1].kind.CharRngUpper?))
  }

  lemma ShapedConcat(x: seq<Element>, y: seq<Element>, n: nat)
    requires Shaped(x, n) && Shaped(y, n)
    ensures Shaped(x + y, n)
  {
    var z := x + y;
    assert forall i | 0 <= i < |x| :: z[i] == x[i];
    assert forall i | 0 <= i < |y| :: z[|x| + i] == y[i];
    assert forall i | |x| <= i < |z| :: z[i] == y[i - |x|];
  }

  lemma StillShaped(e: seq<Element>, n: nat, m: nat)
    requires Shaped(e, n) && n <= m
    ensures Shaped(e, m)
  {
  }

  lemma IdIsUnused(c: Emitted)
    requires IdsBelow(c)
    ensures |c.ids| !in c.synthesised
  {
  }

  lemma ShapedRule(e: seq<Element>, n: nat)
    requires Shaped(e, n)
    ensures WellFormedRule(e + [END], n)
  {
  }

  lemma {:induction false} CharsAreShaped(cs: seq<nat>, n: nat)
    ensures Shaped(CharElements(cs), n)
  {
    if cs != [] {
      CharsAreShaped(cs[1..], n);
      ShapedConcat([Element(Char, cs[0])], CharElements(cs[1..]), n);
    }
  }

  lemma {:induction false} MoreRangesAreShaped(before: seq<Element>, rs: seq<Src.Range>, n: nat)
    requires Shaped(before, n) && before != []
    requires before[|before| - 1].kind.Char? || before[|before| - 1].kind.CharNot? || before[|before| - 1].kind.CharAlt?
             || before[|before| - 1].kind.CharRngUpper?
    ensures Shaped(before + ClassElements(CharAlt, rs), n)
    decreases rs
  {
    if rs == [] {
      assert before + [] == before;
    } else {
      var next := before + RangeElements(CharAlt, rs[0]);
      assert before + ClassElements(CharAlt, rs) == next + ClassElements(CharAlt, rs[1..]);
      MoreRangesAreShaped(next, rs[1..], n);
    }
  }

  lemma ClassIsShaped(k: Kind, rs: seq<Src.Range>, n: nat)
    requires k.Char? || k.CharNot?
    ensures Shaped(ClassElements(k, rs), n)
  {
    if rs != [] {
      MoreRangesAreShaped(RangeElements(k, rs[0]), rs[1..], n);
    }
  }

  ghost predicate IdsBelow(c: Emitted) {
    && (forall name | name in c.ids :: c.ids[name] < |c.ids|)
    && (forall r | r in c.synthesised :: r < |c.ids|)
  }

  lemma ItemIsShaped(c: Emitted, e: seq<Element>, x: Src.Item)
    requires IsItem(c, e, x) && IdsBelow(c)
    ensures Shaped(e, |c.ids|)
  {
    match x
    case Literal(cs) => CharsAreShaped(cs, |c.ids|);
    case Class(neg, rs) => ClassIsShaped(ClassKind(neg), rs, |c.ids|);
    case _ =>
  }

  lemma {:induction false} SequenceIsShaped(c: Emitted, e: seq<Element>, s: Src.Sequence)
    requires IsSequence(c, e, s) && IdsBelow(c)
    ensures Shaped(e, |c.ids|)
    decreases s
  {
    if s.Snoc? {
      var k := SplitElements(c, e, s);
      SequenceIsShaped(c, e[..k], s.init);
      ItemIsShaped(c, e[k..], s.last);
      ShapedConcat(e[..k], e[k..], |c.ids|);
      assert e[..k] + e[k..] == e;
    }
  }

  lemma {:induction false} AlternatesAreShaped(c: Emitted, e: seq<Element>, a: Src.Alternates)
    requires IsAlternates(c, e, a) && IdsBelow(c)
    ensures Shaped(e, |c.ids|)
    decreases a
  {
    match a
    case One(s) => SequenceIsShaped(c, e, s);
    case More(f, s) =>
      var k :| 0 <= k < |e| && e[k] == ALT && IsAlternates(c, e[..k], f) && IsSequence(c, e[k + 1..], s);
      AlternatesAreShaped(c, e[..k], f);
      SequenceIsShaped(c, e[k + 1..], s);
      ShapedAround(e[..k], e[k + 1..], |c.ids|);
      assert e[..k] + [ALT] + e[k + 1..] == e;
  }

  lemma ShapedAround(x: seq<Element>, y: seq<Element>, n: nat)
    requires Shaped(x, n) && Shaped(y, n)
    ensures Shaped(x + [ALT] + y, n)
  {
    ShapedConcat(x, [ALT], n);
    ShapedConcat(x + [ALT], y, n);
  }

  lemma RuleIsWellFormed(c: Emitted, rule: Rule, a: Src.Alternates)
    requires IsRule(c, rule, a) && IdsBelow(c)
    ensures WellFormedRule(rule, |c.ids|)
  {
    AlternatesAreShaped(c, rule[..|rule| - 1], a);
    ShapedRule(rule[..|rule| - 1], |c.ids|);
    assert rule == rule[..|rule| - 1] + [END];
  }

  lemma RepeatIsItem(c: Emitted, id: nat, body: seq<Element>, y: Src.Item, op: Src.Op)
    requires StandsFor(c, id, Src.Repeat(y, op)) && RuleAt(c.rules, id) == RepeatRule(body, op, id) &&
      IsItem(c, body, y)
    ensures IsItem(c, [Element(RuleRef, id)], Src.Repeat(y, op))
  {
    assert [Element(RuleRef, id)][0].value == id;
  }

  /** `d` is `c` with the rule of `id` set, for the item. */
  ghost predicate SynthesisedFrom(c: Emitted, d: Emitted, id: nat, rule: Rule, x: Src.Item) {
    && d.ids == c.ids && d.synthesised == c.synthesised[id := x] && RuleAt(d.rules, id) == rule
    && forall r | r != id :: RuleAt(d.rules, r) == RuleAt(c.rules, r)
  }

  lemma RepeatWillBeItem(c: Emitted, d: Emitted, id: nat, body: seq<Element>, y: Src.Item, op: Src.Op)
    requires IsItem(c, body, y) && Extends(d, c) && id !in d.synthesised
    ensures forall e: Emitted | SynthesisedFrom(d, e, id, RepeatRule(body, op, id), Src.Repeat(y, op)) ::
              IsItem(e, [Element(RuleRef, id)], Src.Repeat(y, op))
  {
    hide IsItem, RepeatRule;
    forall e: Emitted | SynthesisedFrom(d, e, id, RepeatRule(body, op, id), Src.Repeat(y, op))
      ensures IsItem(e, [Element(RuleRef, id)], Src.Repeat(y, op))
    {
      IsItemExtends(c, d, body, y);
      IsItemExtends(d, e, body, y);
      RepeatIsItem(e, id, body, y, op);
    }
  }

  lemma RepeatIsWellFormed(body: seq<Element>, op: Src.Op, v: nat, n: nat)
    requires Shaped(body, n) && v < n
    ensures WellFormedRule(RepeatRule(body, op, v), n)
  {
    var first := body + if op.Opt? then [] else [Element(RuleRef, v)];
    var second := if op.Plus? then body else [];
    ShapedConcat(body, if op.Opt? then [] else [Element(RuleRef, v)], n);
    ShapedConcat(first, [ALT], n);
    ShapedConcat(first + [ALT], second, n);
    ShapedRule(first + [ALT] + second, n);
  }

  // ---------------------------------------------------------------- The parser state

  predicate NamesOk(ts: seq<Src.Token>) {
    forall i | 0 <= i < |ts| :: ts[i].TName? ==> IsWordName(ts[i].name)
  }

  lemma TableGrows(ids: map<string, nat>, key: string)
    requires TableOk(ids) && key !in ids && IsKey(key, |ids|)
    ensures |ids[key := |ids|]| == |ids| + 1 && TableOk(ids[key := |ids|])
  {
    var more := ids[key := |ids|];
    assert more.Keys == ids.Keys + {key};
    forall r: nat | r < |more|
      ensures HasId(more, r)
    {
      if r < |ids| {
        assert HasId(ids, r);
        var name :| name in ids && ids[name] == r;
        assert more[name] == r;
      } else {
        assert more[key] == r;
      }
    }
  }

  /** What the parser keeps: ids are dense, and every synthesised rule is well-formed and represents its item. */
  ghost predicate StateOk(c: Emitted) {
    && TableOk(c.ids) && |c.rules| <= |c.ids|
    && (forall r | r in c.synthesised :: r < |c.ids| && WellFormedRule(RuleAt(c.rules, r), |c.ids|))
    && (forall name | name in c.ids && IsWordName(name) :: c.ids[name] !in c.synthesised)
    && Sound(c)
  }

  lemma KeyIsAdded(c: Emitted, key: string)
    requires StateOk(c) && key !in c.ids && IsKey(key, |c.ids|)
    ensures StateOk(c.(ids := c.ids[key := |c.ids|])) && |c.ids[key := |c.ids|]| == |c.ids| + 1
  {
    hide IsKey, Sound, TableOk, WellFormedRule;
    var d := c.(ids := c.ids[key := |c.ids|]);
    TableGrows(c.ids, key);
    SoundExtends(c, d);
    forall r | r in c.synthesised
      ensures WellFormedRule(RuleAt(c.rules, r), |d.ids|)
    {
      StillWellFormed(RuleAt(c.rules, r), |c.ids|, |d.ids|);
    }
  }

  lemma StillWellFormed(rule: Rule, n: nat, m: nat)
    requires WellFormedRule(rule, n) && n <= m
    ensures WellFormedRule(rule, m)
  {
  }

  lemma RuleIsSet(c: Emitted, d: Emitted, id: nat)
    requires StateOk(c) && id !in c.synthesised && d.ids == c.ids && d.synthesised == c.synthesised &&
      |d.rules| <= |d.ids|
    requires forall r | r != id :: RuleAt(d.rules, r) == RuleAt(c.rules, r)
    ensures StateOk(d)
  {
    hide Sound, TableOk, WellFormedRule;
    SoundExtends(c, d);
  }

  lemma SymbolIsCompleted(c: Emitted, id: nat, key: string, x: Src.Item)
    requires StateOk(c) && key in c.ids && c.ids[key] == id && !IsWordName(key) && id !in c.synthesised
    requires WellFormedRule(RuleAt(c.rules, id), |c.ids|)
    requires IsItem(c.(synthesised := c.synthesised[id := x]), [Element(RuleRef, id)], x)
    ensures StateOk(c.(synthesised := c.synthesised[id := x]))
  {
    hide Sound, WellFormedRule, IsItem, IsKey;
    SoundExtends(c, c.(synthesised := c.synthesised[id := x]));
  }

  class ParseState {
    var symbolIds: map<string, nat>
    var rules: Rules
    ghost var synthesised: map<nat, Src.Item>

    ghost function View(): Emitted
      reads this
    {
      Emitted(rules, symbolIds, synthesised)
    }

    ghost predicate Valid()
      reads this
    {
      StateOk(View())
    }

    constructor ()
      ensures Valid() && symbolIds == map[] && rules == [] && synthesised == map[]
    {
      symbolIds, rules, synthesised := map[], [], map[];
    }

    /** Numbers a symbol when it is first met. */
    method GetSymbolId(name: string) returns (id: nat)
      requires Valid() && IsWordName(name)
      modifies this
      ensures Valid() && rules == old(rules) && synthesised == old(synthesised)
      ensures symbolIds == if name in old(symbolIds) then old(symbolIds) else old(symbolIds)[name := |old(symbolIds)|]
      ensures name in symbolIds && id == symbolIds[name]
    {
      if name !in symbolIds {
        AddKey(name);
      }
      id := symbolIds[name];
    }

    /** Numbers a new symbol for a group or repetition in rule `baseName`. */
    method GenerateSymbolId(baseName: string) returns (id: nat)
      requires Valid() && IsWordName(baseName)
      modifies this
      ensures Valid() && rules == old(rules) && synthesised == old(synthesised)
      ensures id == |old(symbolIds)| && SynthesisedName(baseName, id) !in old(symbolIds)
      ensures symbolIds == old(symbolIds)[SynthesisedName(baseName, id) := id]
    {
      id := |symbolIds|;
      NewKeyIsFresh(symbolIds, baseName);
      AddKey(SynthesisedName(baseName, id));
    }

    method AddKey(key: string)
      requires Valid() && key !in symbolIds && IsKey(key, |symbolIds|)
      modifies this
      ensures Valid() && rules == old(rules) && synthesised == old(synthesised)
      ensures symbolIds == old(symbolIds)[key := |old(symbolIds)|] && |symbolIds| == |old(symbolIds)| + 1
    {
      hide StateOk, IsKey;
      KeyIsAdded(View(), key);
      symbolIds := symbolIds[key := |symbolIds|];
    }

    /** Sets the rule of a symbol, growing the table with empty rules as needed. */
    method AddRule(id: nat, rule: Rule)
      requires Valid() && id < |symbolIds| && id !in synthesised
      modifies this`rules
      ensures Valid() && RuleAt(rules, id) == rule
      ensures forall r | r != id :: RuleAt(rules, r) == RuleAt(old(rules), r)
    {
      hide WellFormedRule, Sound, TableOk;
      ghost var c := View();
      if |rules| <= id {
        rules := rules + seq(id + 1 - |rules|, _ => []);
      }
      rules := rules[id := rule];
      assert forall r | r != id :: RuleAt(rules, r) == RuleAt(old(rules), r);
      RuleIsSet(c, View(), id);
    }

    /** Marks a synthesised symbol whose rule is in place. */
    ghost method Complete(id: nat, key: string, x: Src.Item)
      requires Valid() && key in symbolIds && symbolIds[key] == id && !IsWordName(key)
      requires WellFormedRule(RuleAt(rules, id), |symbolIds|) && id !in synthesised
      requires IsItem(View().(synthesised := synthesised[id := x]), [Element(RuleRef, id)], x)
      modifies this`synthesised
      ensures Valid() && synthesised == old(synthesised)[id := x]
    {
      hide StateOk, WellFormedRule, IsItem;
      SymbolIsCompleted(View(), id, key, x);
      synthesised := synthesised[id := x];
    }

    /** Replaces the elements `body` by a reference to a rule that repeats them. */
    method EmitRepeat(body: seq<Element>, op: Src.Op, ruleName: string, ghost y: Src.Item) returns (id: nat)
      requires Valid() && IsWordName(ruleName) && IsItem(View(), body, y)
      modifies this
      ensures Valid() && Grows(old(View()), View())
      ensures IsItem(View(), [Element(RuleRef, id)], Src.Repeat(y, op)) &&
        New(old(View()), View(), {}, {Src.Repeat(y, op)})
    {
      hide Grows, WellFormedRule, IsItem, RepeatRule, StateOk, New, Shaped, TableOk, IdsBelow, SynthesisedFrom;
      ghost var c := View();
      IdsAreBelow();
      ItemIsShaped(c, body, y);
      id := GenerateSymbolId(ruleName);
      ghost var key := SynthesisedName(ruleName, id);
      KeyIsNew(c, ruleName);
      IdIsUnused(c);
      var subRule := BuildRepeatRule(body, op, id);
      StillShaped(body, id, |symbolIds|);
      RepeatIsWellFormed(body, op, id, |symbolIds|);
      RepeatWillBeItem(c, View(), id, body, y, op);
      AddSynthesised(id, subRule, key, c, Src.Repeat(y, op));
    }

    /** Sets the rule of a symbol that has just been synthesised. */
    method AddSynthesised(id: nat, rule: Rule, ghost key: string, ghost c: Emitted, ghost x: Src.Item)
      requires Valid() && IdsBelow(c) && id == |c.ids| && id !in synthesised && |rules| <= id && key in symbolIds
      requires key !in c.ids && !IsWordName(key) && |symbolIds| == id + 1
      requires View() == c.(ids := c.ids[key := id]) && WellFormedRule(rule, |symbolIds|)
      requires forall d: Emitted | SynthesisedFrom(View(), d, id, rule, x) :: IsItem(d, [Element(RuleRef, id)], x)
      modifies this
      ensures Valid() && Grows(c, View()) && Extends(View(), c) && New(c, View(), {}, {x})
      ensures IsItem(View(), [Element(RuleRef, id)], x)
      ensures StandsFor(View(), id, x) && RuleAt(rules, id) == rule && symbolIds == old(symbolIds)
    {
      hide WellFormedRule, StateOk, TableOk, IsItem, IsWordName, Grows, Extends;
      ghost var d := View();
      AddRule(id, rule);
      assert GrowsBut(d, View(), id);
      assert SynthesisedFrom(d, View().(synthesised := synthesised[id := x]), id, rule, x);
      IdsAreBelow();
      SynthesisGrows(c, key, View(), x);
      Complete(id, key, x);
      GrowsExtends(c, View(), |symbolIds|);
    }

    /** Parses nested alternates into a synthesised rule. */
    method EmitGroup(ts: seq<Src.Token>, start: nat, ruleName: string) returns (ok: bool, pos: nat, id: nat)
      requires Valid() && start <= |ts| && NamesOk(ts) && IsWordName(ruleName)
      modifies this
      ensures Valid() && ok == Src.ReadAlternates(ts, start).Done?
      ensures ok ==> pos == Src.ReadAlternates(ts, start).pos && Grows(old(View()), View())
      ensures ok ==> var x := Src.Group(Src.ReadAlternates(ts, start).value);
        IsItem(View(), [Element(RuleRef, id)], x) && New(old(View()), View(), Src.ItemNames(x), Src.ItemParts(x))
      decreases |ts| - start, 4
    {
      hide IsItem, IsRule, WellFormedRule, TableOk, Sound, Grows, GrowsBut, New, Src.ReadAlternates;
      ghost var c := View();
      IdsAreBelow();
      id := GenerateSymbolId(ruleName);
      ghost var key := SynthesisedName(ruleName, id);
      KeyIsNew(c, ruleName);
      ghost var keyed := View();
      ok, pos := ParseAlternates(ts, start, ruleName, id);
      if ok {
        ghost var d, a := View(), Src.ReadAlternates(ts, start).value;
        IdsAreBelow();
        GroupIsSynthesised(c, key, keyed, d, id, a);
        Complete(id, key, Src.Group(a));
      }
    }

    /** A literal or a character class. */
    method ParseTerminal(ts: seq<Src.Token>, start: nat, outElements: seq<Element>, symStart: nat,
                         ghost base: nat, ghost acc: Src.Sequence)
      returns (out: seq<Element>, ghost next: Src.Sequence)
      requires Valid() && start < |ts| && (ts[start].TLiteral? || ts[start].TClass?)
      requires Building(View(), base, outElements, symStart, acc)
      ensures Stepped(View(), View(), ts, start, acc, start + 1, next, base, outElements, out, |outElements|)
    {
      match ts[start]
      case TLiteral(chars) =>
        out := EmitLiteral(outElements, chars);
        next := Src.Snoc(acc, Src.Literal(chars));
        PushLiteral(View(), base, outElements, symStart, acc, chars);
      case TClass(negated, ranges) =>
        out := EmitClass(outElements, negated, ranges);
        next := Src.Snoc(acc, Src.Class(negated, ranges));
        PushClass(View(), base, outElements, symStart, acc, negated, ranges);
    }

    /** A rule reference. */
    method ParseName(ts: seq<Src.Token>, start: nat, outElements: seq<Element>, symStart: nat,
                     ghost base: nat, ghost acc: Src.Sequence)
      returns (out: seq<Element>, ghost next: Src.Sequence)
      requires Valid() && start < |ts| && ts[start].TName? && IsWordName(ts[start].name)
      requires Building(View(), base, outElements, symStart, acc)
      modifies this
      ensures Valid()
      ensures Stepped(old(View()), View(), ts, start, acc, start + 1, next, base, outElements, out, |outElements|)
    {
      hide Grows, StateOk, IdsBelow, Building, New, Stepped;
      ghost var c, name := View(), ts[start].name;
      IdsAreBelow();
      var refRuleId := GetSymbolId(ts[start].name);
      IdsAreBelow();
      KeysGrow(c.ids, name);
      GrowsBySymbol(c, View(), name);
      NameIsNew(c, View(), name);
      out := outElements + [Element(RuleRef, refRuleId)];
      next := Src.Snoc(acc, Src.Ref(name));
      PushIsStepped(c, View(), ts, start, acc, start + 1, base, outElements, symStart, [Element(RuleRef, refRuleId)],
        Src.Ref(name));
    }

    /** A group: the rule of its alternates is synthesised, and a reference to it is output. */
    method ParseGroup(ts: seq<Src.Token>, start: nat, ruleName: string, outElements: seq<Element>, symStart: nat,
                      ghost base: nat, ghost acc: Src.Sequence)
      returns (ok: bool, pos: nat, out: seq<Element>, ghost next: Src.Sequence)
      requires Valid() && start < |ts| && NamesOk(ts) && IsWordName(ruleName) && ts[start].TOpen?
      requires Building(View(), base, outElements, symStart, acc)
      modifies this
      ensures Valid()
      ensures ok ==> Stepped(old(View()), View(), ts, start, acc, pos, next, base, outElements, out, |outElements|)
      ensures !ok ==> Src.ReadSequence(ts, start, acc).Fail?
      decreases |ts| - start, 0
    {
      hide IsItem, Building, Stepped, Grows, WellFormedRule, Src.ReadAlternates, NoEnd, IsSequence, StateOk, IdsBelow,
        New, TableOk;
      ghost var c := View();
      IdsAreBelow();
      var subRuleId;
      out, next := outElements, acc;
      ok, pos, subRuleId := EmitGroup(ts, start + 1, ruleName);
      if !ok || pos == |ts| || ts[pos] != Src.TClose {
        ok := false;
        return;
      }
      ghost var group := Src.Group(Src.ReadAlternates(ts, start + 1).value);
      next := Src.Snoc(acc, group);
      pos := pos + 1;
      out := out + [Element(RuleRef, subRuleId)];
      GroupIsStepped(c, View(), ts, start, acc, base, outElements, symStart, [Element(RuleRef, subRuleId)]);
    }

    /** A repetition operator, applied to the elements from `symStart` on. */
    method ParseRepeat(ts: seq<Src.Token>, start: nat, ruleName: string, outElements: seq<Element>, symStart: nat,
                       ghost base: nat, ghost acc: Src.Sequence)
      returns (ok: bool, out: seq<Element>, ghost next: Src.Sequence)
      requires Valid() && start < |ts| && IsWordName(ruleName) && ts[start].TOp?
      requires Building(View(), base, outElements, symStart, acc)
      modifies this
      ensures Valid()
      ensures ok ==> Stepped(old(View()), View(), ts, start, acc, start + 1, next, base, outElements, out, symStart)
      ensures !ok ==> Src.ReadSequence(ts, start, acc).Fail?
    {
      hide Grows, StateOk, New, Stepped, IsSequence, IdsBelow;
      ghost var c := View();
      IdsAreBelow();
      out, next := outElements, acc;
      if acc.Snoc? {
        EmptyItemIsEmpty(c, out[symStart..], acc.last);
      }
      ok := symStart < |out|;
      if ok {
        var subRuleId := EmitRepeat(outElements[symStart..], ts[start].op, ruleName, acc.last);
        out := outElements[..symStart] + [Element(RuleRef, subRuleId)];
        next := Src.Snoc(acc.init, Src.Repeat(acc.last, ts[start].op));
        RepeatIsStepped(c, View(), ts, start, acc, ts[start].op, base, outElements, symStart,
          [Element(RuleRef, subRuleId)]);
      }
    }

    /** One turn of the loop over the items of a sequence. `acc` is what the elements read so far stand for. */
    method ParseItem(ts: seq<Src.Token>, start: nat, ruleName: string, outElements: seq<Element>, symStart: nat,
                     ghost base: nat, ghost acc: Src.Sequence)
      returns (ok: bool, pos: nat, out: seq<Element>, lastSymStart: nat, ghost next: Src.Sequence)
      requires Valid() && start < |ts| && NamesOk(ts) && IsWordName(ruleName) && !Src.Stops(ts, start)
      requires Building(View(), base, outElements, symStart, acc)
      modifies this
      ensures Valid()
      ensures ok ==> Stepped(old(View()), View(), ts, start, acc, pos, next, base, outElements, out, lastSymStart)
      ensures !ok ==> Src.ReadSequence(ts, start, acc).Fail?
      decreases |ts| - start, 1
    {
      ok, pos, lastSymStart := true, start + 1, |outElements|;
      if ts[start].TName? {
        out, next := ParseName(ts, start, outElements, symStart, base, acc);
      } else if ts[start].TOpen? {
        ok, pos, out, next := ParseGroup(ts, start, ruleName, outElements, symStart, base, acc);
      } else if ts[start].TOp? {
        lastSymStart := symStart;
        ok, out, next := ParseRepeat(ts, start, ruleName, outElements, symStart, base, acc);
      } else {
        out, next := ParseTerminal(ts, start, outElements, symStart, base, acc);
      }
    }

    /** Appends the elements of the items from `start` on; fails where the reader fails. */
    method ParseSequence(ts: seq<Src.Token>, start: nat, ruleName: string, outElements: seq<Element>)
      returns (ok: bool, pos: nat, out: seq<Element>)
      requires Valid() && start <= |ts| && NamesOk(ts) && IsWordName(ruleName)
      modifies this
      ensures Valid() && ok == Src.ReadSequence(ts, start, Src.Empty).Done?
      ensures ok ==> pos == Src.ReadSequence(ts, start, Src.Empty).pos && Grows(old(View()), View())
      ensures ok ==> |outElements| <= |out| && out[..|outElements|] == outElements
      ensures ok ==> var s := Src.ReadSequence(ts, start, Src.Empty).value;
        IsSequence(View(), out[|outElements|..], s) &&
          New(old(View()), View(), Src.SequenceNames(s), Src.SequenceParts(s))
      decreases |ts| - start, 2
    {
      hide StateOk, Grows, New, Building, IsSequence, Stepped, IdsBelow, Src.ReadSequence;
      ghost var c, base, acc := View(), |outElements|, Src.Empty;
      var lastSymStart: nat := |outElements|;
      pos, out := start, outElements;
      GrowsSame(c);
      NothingNew(c, base, out);
      while !Src.Stops(ts, pos)
        invariant start <= pos <= |ts| && Valid() && Grows(c, View()) &&
          New(c, View(), Src.SequenceNames(acc), Src.SequenceParts(acc))
        invariant Src.ReadSequence(ts, start, Src.Empty) == Src.ReadSequence(ts, pos, acc)
        invariant base <= |out| && Building(View(), base, out, lastSymStart, acc) && out[..base] == outElements
        decreases |ts| - pos
      {
        ghost var d, before, outBefore, posBefore := View(), acc, out, pos;
        IdsAreBelow();
        ok, pos, out, lastSymStart, acc := ParseItem(ts, pos, ruleName, out, lastSymStart, base, acc);
        if !ok {
          return;
        }
        StepsJoin(c, d, View(), ts, posBefore, before, pos, acc, base, outBefore, out, lastSymStart);
      }
      ok := true;
      ReadEnds(ts, pos, acc);
      BuildingIsSequence(View(), base, out, lastSymStart, acc);
    }

    /** One more alternate, after a bar. */
    method ParseAlternate(ts: seq<Src.Token>, bar: nat, ruleName: string, rule: Rule, ghost acc: Src.Alternates)
      returns (ok: bool, pos: nat, out: Rule)
      requires Valid() && bar < |ts| && NamesOk(ts) && IsWordName(ruleName) && IsAlternates(View(), rule, acc)
      modifies this
      ensures Valid() && ok == Src.ReadSequence(ts, bar + 1, Src.Empty).Done?
      ensures ok ==> pos == Src.ReadSequence(ts, bar + 1, Src.Empty).pos && Grows(old(View()), View())
      ensures ok ==> var s := Src.ReadSequence(ts, bar + 1, Src.Empty).value;
        IsAlternates(View(), out, Src.More(acc, s)) &&
          New(old(View()), View(), Src.SequenceNames(s), Src.SequenceParts(s))
      decreases |ts| - bar, 0
    {
      hide StateOk, IsAlternates, IsSequence, Grows, New, IdsBelow;
      ghost var c := View();
      IdsAreBelow();
      var withBar := rule + [ALT];
      ok, pos, out := ParseSequence(ts, bar + 1, ruleName, withBar);
      if ok {
        AlternatesGrow(c, View(), rule, acc, withBar, out, Src.ReadSequence(ts, bar + 1, Src.Empty).value);
      }
    }

    /** Parses the alternates from `start` on into the rule `ruleId`. */
    method ParseAlternates(ts: seq<Src.Token>, start: nat, ruleName: string, ruleId: nat) returns (ok: bool, pos: nat)
      requires Valid() && start <= |ts| && NamesOk(ts) && IsWordName(ruleName)
      requires ruleId < |symbolIds| && ruleId !in synthesised
      modifies this
      ensures Valid() && ok == Src.ReadAlternates(ts, start).Done?
      ensures ok ==> pos == Src.ReadAlternates(ts, start).pos && GrowsBut(old(View()), View(), ruleId)
      ensures ok ==> ruleId !in synthesised
      ensures ok ==> IsRule(View(), RuleAt(rules, ruleId), Src.ReadAlternates(ts, start).value)
      ensures ok ==> var a := Src.ReadAlternates(ts, start).value;
        New(old(View()), View(), Src.AlternatesNames(a), Src.AlternatesParts(a))
      decreases |ts| - start, 3
    {
      hide StateOk, Grows, New, IdsBelow, IsAlternates, IsSequence;
      ghost var c := View();
      IdsAreBelow();
      var rule;
      ok, pos, rule := ParseSequence(ts, start, ruleName, []);
      if !ok {
        return;
      }
      ghost var acc := Src.One(Src.ReadSequence(ts, start, Src.Empty).value);
      assert rule[0..] == rule;
      FirstAlternate(View(), rule, Src.ReadSequence(ts, start, Src.Empty).value);
      while pos < |ts| && ts[pos] == Src.TBar
        invariant start <= pos <= |ts| && Valid() && Grows(c, View())
        invariant Src.ReadAlternates(ts, start) == Src.ReadMore(ts, pos, acc)
        invariant IsAlternates(View(), rule, acc) && New(c, View(), Src.AlternatesNames(acc), Src.AlternatesParts(acc))
        decreases |ts| - pos
      {
        ghost var d, s := View(), Src.ReadSequence(ts, pos + 1, Src.Empty);
        IdsAreBelow();
        ok, pos, rule := ParseAlternate(ts, pos, ruleName, rule, acc);
        if !ok {
          return;
        }
        IdsAreBelow();
        AlternatesJoin(c, d, View(), acc, s.value);
        acc := Src.More(acc, s.value);
      }
      ok := true;
      ghost var d := View();
      FinishRule(ruleId, rule, c, acc);
      SameNew(c, d, View(), Src.AlternatesNames(acc), Src.AlternatesParts(acc));
    }

    /** Closes the elements of a rule and sets it. */
    method FinishRule(ruleId: nat, body: seq<Element>, ghost c: Emitted, ghost acc: Src.Alternates)
      requires Valid() && Grows(c, View()) && TableOk(c.ids) && IdsBelow(c) && ruleId < |c.ids| &&
        ruleId !in c.synthesised
      requires IsAlternates(View(), body, acc)
      modifies this`rules
      ensures Valid() && GrowsBut(c, View(), ruleId) && ruleId !in synthesised &&
        IsRule(View(), RuleAt(rules, ruleId), acc)
    {
      hide IsAlternates, IsRule, TableOk, IdsBelow, GrowsBut, Grows, StateOk;
      ghost var d := View();
      IdsAreBelow();
      GrowsKeepsId(c, d, ruleId);
      AddRule(ruleId, body + [END]);
      RuleIsAdded(c, d, View(), ruleId, body, acc);
    }

    lemma IdsAreBelow()
      requires Valid()
      ensures IdsBelow(View()) && TableOk(symbolIds) && |rules| <= |symbolIds|
      ensures forall name | name in symbolIds && IsWordName(name) :: symbolIds[name] !in synthesised
    {
    }

    /** Parses one named rule. */
    method ParseRule(ts: seq<Src.Token>, start: nat) returns (ok: bool, pos: nat)
      requires Valid() && start <= |ts| && NamesOk(ts)
      modifies this
      ensures Valid() && ok == Src.ReadRule(ts, start).Done?
      ensures ok ==> var d := Src.ReadRule(ts, start);
        && pos == d.pos && RuleIsParsed(old(View()), View(), d.value)
    {
      hide GrowsBut, WellFormedRule, IsRule, RuleIsParsed, IdsBelow, Src.ReadAlternates, New, StateOk;
      if start + 2 > |ts| || !ts[start].TName? {
        return false, start;
      }
      var name := ts[start].name;
      ghost var c := View();
      IdsAreBelow();
      var ruleId := GetSymbolId(name);
      if ts[start + 1] != Src.TDefine {
        return false, start;
      }
      ghost var d := View();
      IdsAreBelow();
      ok, pos := ParseAlternates(ts, start + 2, name, ruleId);
      ok := ok && (pos == |ts| || ts[pos] == Src.TEol);
      if ok {
        RuleAfterSymbol(c, d, View(), name, Src.ReadAlternates(ts, start + 2).value);
        if pos < |ts| {
          pos := pos + 1;
        }
      }
    }
  }

  /** A named rule has been parsed: its name has its rule, and the rest has only grown. */
  ghost predicate RuleIsParsed(c: Emitted, d: Emitted, def: Src.RuleDef) {
    && IsWordName(def.name) && def.name in d.ids
    && GrowsBut(c, d, d.ids[def.name])
    && IsRule(d, RuleAt(d.rules, d.ids[def.name]), def.alts)
    && New(c, d, {def.name} + Src.AlternatesNames(def.alts), Src.AlternatesParts(def.alts))
  }

  lemma RuleAfterSymbol(c: Emitted, d: Emitted, e: Emitted, name: string, a: Src.Alternates)
    requires IdsBelow(c) && IsWordName(name) && d.rules == c.rules && d.synthesised == c.synthesised &&
      |c.rules| <= |c.ids|
    requires d.ids == if name in c.ids then c.ids else c.ids[name := |c.ids|]
    requires |c.ids| <= |d.ids| && GrowsBut(d, e, d.ids[name]) && IsRule(e, RuleAt(e.rules, d.ids[name]), a)
    requires New(d, e, Src.AlternatesNames(a), Src.AlternatesParts(a))
    ensures RuleIsParsed(c, e, Src.RuleDef(name, a))
  {
    hide IsRule;
    SymbolThenRule(c, d, e, name);
    NameIsNew(c, d, name);
    NewMore(d, e, Src.AlternatesNames(a), Src.AlternatesParts(a), {name} + Src.AlternatesNames(a),
      Src.AlternatesParts(a));
    NewTransitive(c, d, e, {name}, {}, {name} + Src.AlternatesNames(a), Src.AlternatesParts(a));
  }

  lemma RuleIsAdded(c: Emitted, d: Emitted, e: Emitted, ruleId: nat, body: seq<Element>, a: Src.Alternates)
    requires Grows(c, d) && IdsBelow(c) && IdsBelow(d) && ruleId < |c.ids| && ruleId !in c.synthesised &&
      IsAlternates(d, body, a)
    requires TableOk(c.ids) && TableOk(d.ids)
    requires e.ids == d.ids && e.synthesised == d.synthesised && RuleAt(e.rules, ruleId) == body + [END]
    requires forall r | r != ruleId :: RuleAt(e.rules, r) == RuleAt(d.rules, r)
    ensures GrowsBut(c, e, ruleId) && ruleId !in e.synthesised && IsRule(e, RuleAt(e.rules, ruleId), a)
  {
    IsAlternatesExtends(d, e, body, a);
    assert (body + [END])[..|body|] == body;
    assert HasId(c.ids, ruleId);
  }

  lemma SymbolThenRule(c: Emitted, d: Emitted, e: Emitted, name: string)
    requires IdsBelow(c) && IsWordName(name) && d.rules == c.rules && d.synthesised == c.synthesised &&
      |c.rules| <= |c.ids|
    requires d.ids == if name in c.ids then c.ids else c.ids[name := |c.ids|]
    requires |c.ids| <= |d.ids| && GrowsBut(d, e, d.ids[name])
    ensures name in e.ids && GrowsBut(c, e, e.ids[name])
  {
  }

  lemma GrowsBySymbol(c: Emitted, d: Emitted, name: string)
    requires IdsBelow(c) && IsWordName(name) && d.rules == c.rules && d.synthesised == c.synthesised &&
      |c.rules| <= |c.ids|
    requires d.ids == if name in c.ids then c.ids else c.ids[name := |c.ids|]
    requires |c.ids| <= |d.ids|
    ensures Grows(c, d)
  {
  }

  lemma BuildingGrows(c: Emitted, d: Emitted, base: nat, out: seq<Element>, last: nat, acc: Src.Sequence)
    requires Building(c, base, out, last, acc) && Grows(c, d) && IdsBelow(c)
    ensures Building(d, base, out, last, acc)
  {
    GrowsExtends(c, d, |d.ids|);
    BuildingExtends(c, d, base, out, last, acc);
  }

  lemma FirstAlternate(c: Emitted, e: seq<Element>, s: Src.Sequence)
    requires IsSequence(c, e, s)
    ensures IsAlternates(c, e, Src.One(s))
  {
  }

  lemma AlternatesJoin(c: Emitted, d: Emitted, e: Emitted, acc: Src.Alternates, s: Src.Sequence)
    requires Grows(c, d) && New(c, d, Src.AlternatesNames(acc), Src.AlternatesParts(acc)) && IdsBelow(d) && IdsBelow(e)
    requires Grows(d, e) && New(d, e, Src.SequenceNames(s), Src.SequenceParts(s))
    ensures Grows(c, e) && New(c, e, Src.AlternatesNames(Src.More(acc, s)), Src.AlternatesParts(Src.More(acc, s)))
  {
    var a := Src.More(acc, s);
    GrowsTransitive(c, d, e);
    NewMore(d, e, Src.SequenceNames(s), Src.SequenceParts(s), Src.AlternatesNames(a), Src.AlternatesParts(a));
    NewTransitive(c, d, e, Src.AlternatesNames(acc), Src.AlternatesParts(acc), Src.AlternatesNames(a),
      Src.AlternatesParts(a));
  }

  lemma SameNew(c: Emitted, d: Emitted, e: Emitted, names: set<string>, parts: set<Src.Item>)
    requires New(c, d, names, parts) && e.ids == d.ids && e.synthesised == d.synthesised
    ensures New(c, e, names, parts)
  {
  }

  lemma NewMore(c: Emitted, d: Emitted, names: set<string>, parts: set<Src.Item>, more: set<string>,
                moreParts: set<Src.Item>)
    requires New(c, d, names, parts) && names <= more && parts <= moreParts
    ensures New(c, d, more, moreParts)
  {
  }

  lemma AlternatesGrow(c: Emitted, d: Emitted, before: seq<Element>, acc: Src.Alternates, withBar: seq<Element>,
                       rule: seq<Element>, s: Src.Sequence)
    requires IsAlternates(c, before, acc) && Grows(c, d) && IdsBelow(c) && withBar == before + [ALT]
    requires |withBar| <= |rule| && rule[..|withBar|] == withBar && IsSequence(d, rule[|withBar|..], s)
    ensures IsAlternates(d, rule, Src.More(acc, s))
  {
    hide IsSequence;
    GrowsExtends(c, d, |d.ids|);
    IsAlternatesExtends(c, d, before, acc);
    var k := |before|;
    assert rule[k] == withBar[k] == ALT && rule[..k] == withBar[..k] == before;
  }

  method BuildRepeatRule(body: seq<Element>, op: Src.Op, id: nat) returns (subRule: Rule)
    ensures subRule == RepeatRule(body, op, id)
  {
    subRule := body;
    if op.Star? || op.Plus? {
      subRule := subRule + [Element(RuleRef, id)];
    }
    subRule := subRule + [ALT];
    if op.Plus? {
      subRule := subRule + body;
    }
    subRule := subRule + [END];
  }

  method EmitLiteral(out: seq<Element>, chars: seq<nat>) returns (more: seq<Element>)
    ensures more == out + CharElements(chars)
  {
    more := out;
    for i := 0 to |chars|
      invariant more + CharElements(chars[i..]) == out + CharElements(chars)
    {
      var before := more;
      more := more + [Element(Char, chars[i])];
      assert chars[i..][1..] == chars[i + 1..];
      assert before + ([Element(Char, chars[i])] + CharElements(chars[i + 1..])) == more + CharElements(chars[i + 1..]);
    }
  }

  method EmitClass(out: seq<Element>, negated: bool, ranges: seq<Src.Range>) returns (more: seq<Element>)
    ensures more == out + ClassElements(ClassKind(negated), ranges)
  {
    more := out;
    var kind := ClassKind(negated);
    for i := 0 to |ranges|
      invariant kind == if i == 0 then ClassKind(negated) else CharAlt
      invariant more + ClassElements(kind, ranges[i..]) == out + ClassElements(ClassKind(negated), ranges)
    {
      ghost var before, rest := more, ClassElements(CharAlt, ranges[i + 1..]);
      assert ranges[i..][1..] == ranges[i + 1..];
      ghost var here := RangeElements(kind, ranges[i]);
      more := more + [Element(kind, ranges[i].lo)];
      if !ranges[i].single {
        more := more + [Element(CharRngUpper, ranges[i].hi)];
      }
      assert more == before + here && before + (here + rest) == (before + here) + rest;
      kind := CharAlt;
    }
  }

  // ---------------------------------------------------------------- Whole grammars

  const NOTHING := Emitted([], map[], map[])

  /** The rules represent the grammar, every synthesised symbol is complete, and all symbols come from the grammar. */
  ghost predicate Compiled(c: Emitted, g: seq<Src.RuleDef>) {
    && Implements(c, g)
    && (forall name | name in c.ids && !IsWordName(name) :: c.ids[name] in c.synthesised)
    && (forall i | 0 <= i < |g| :: IsWordName(g[i].name))
    && New(NOTHING, c, Src.GrammarNames(g), Src.GrammarParts(g))
  }

  lemma NewInGrammar(c: Emitted, d: Emitted, g: seq<Src.RuleDef>, def: Src.RuleDef)
    requires New(NOTHING, c, Src.GrammarNames(g), Src.GrammarParts(g)) && RuleIsParsed(c, d, def)
    ensures New(NOTHING, d, Src.GrammarNames(g + [def]), Src.GrammarParts(g + [def]))
  {
    hide IsRule, New;
    var more := g + [def];
    assert more[..|more| - 1] == g;
    NewMore(c, d, {def.name} + Src.AlternatesNames(def.alts), Src.AlternatesParts(def.alts), Src.GrammarNames(more),
      Src.GrammarParts(more));
    NewTransitive(NOTHING, c, d, Src.GrammarNames(g), Src.GrammarParts(g), Src.GrammarNames(more),
      Src.GrammarParts(more));
  }

  lemma BodyOfLast(g: seq<Src.RuleDef>, d: Src.RuleDef, name: string)
    ensures Defines(g + [d], name) <==> name == d.name || Defines(g, name)
    ensures Defines(g + [d], name) ==> Body(g + [d], name) == if name == d.name then d.alts else Body(g, name)
  {
    var more := g + [d];
    assert more[..|more| - 1] == g && more[|more| - 1] == d;
    if i :| 0 <= i < |g| && g[i].name == name {
      assert more[i].name == name;
    }
  }

  lemma RuleKeepsOthers(c: Emitted, d: Emitted, g: seq<Src.RuleDef>, def: Src.RuleDef, name: string)
    requires Implements(c, g) && IdsBelow(c) && TableOk(d.ids) && RuleIsParsed(c, d, def) &&
      d.ids[def.name] !in c.synthesised
    requires Defines(g, name) && name != def.name
    ensures name in d.ids && IsRule(d, RuleAt(d.rules, d.ids[name]), Body(g, name))
  {
    GrowsExtends(c, d, d.ids[def.name]);
    assert d.ids[name] == c.ids[name] != d.ids[def.name];
    IsRuleExtends(c, d, RuleAt(c.rules, c.ids[name]), Body(g, name));
  }

  lemma RuleIsCompiled(c: Emitted, d: Emitted, g: seq<Src.RuleDef>, def: Src.RuleDef)
    requires Compiled(c, g) && IdsBelow(c) && TableOk(d.ids) && RuleIsParsed(c, d, def) &&
      d.ids[def.name] !in c.synthesised
    ensures Compiled(d, g + [def])
  {
    hide New, IsRule, GrowsBut, TableOk, Implements, IdsBelow;
    NewInGrammar(c, d, g, def);
    StillImplements(c, d, g, def);
    forall name | name in d.ids && !IsWordName(name)
      ensures d.ids[name] in d.synthesised
    {
      SynthesisedKeeps(c, d, g, def, name);
    }
  }

  lemma StillImplements(c: Emitted, d: Emitted, g: seq<Src.RuleDef>, def: Src.RuleDef)
    requires Compiled(c, g) && IdsBelow(c) && TableOk(d.ids) && RuleIsParsed(c, d, def) &&
      d.ids[def.name] !in c.synthesised
    ensures Implements(d, g + [def])
  {
    hide New, IsRule, GrowsBut, TableOk, IdsBelow, Defines, Body, IsWordName;
    var more := g + [def];
    forall name | Defines(more, name)
      ensures name in d.ids && IsRule(d, RuleAt(d.rules, d.ids[name]), Body(more, name))
    {
      BodyOfLast(g, def, name);
      if name != def.name {
        RuleKeepsOthers(c, d, g, def, name);
      }
    }
    forall name | name in d.ids && IsWordName(name) && !Defines(more, name)
      ensures RuleAt(d.rules, d.ids[name]) == []
    {
      BodyOfLast(g, def, name);
      UndefinedKeepsNothing(c, d, g, def, name);
    }
  }

  lemma UndefinedKeepsNothing(c: Emitted, d: Emitted, g: seq<Src.RuleDef>, def: Src.RuleDef, name: string)
    requires Compiled(c, g) && IdsBelow(c) && TableOk(d.ids) && RuleIsParsed(c, d, def)
    requires name in d.ids && IsWordName(name) && !Defines(g, name) && name != def.name
    ensures RuleAt(d.rules, d.ids[name]) == []
  {
    hide New, IsRule, IsKey, HasId;
    assert d.ids[name] != d.ids[def.name];
  }

  lemma SynthesisedKeeps(c: Emitted, d: Emitted, g: seq<Src.RuleDef>, def: Src.RuleDef, name: string)
    requires Compiled(c, g) && TableOk(d.ids) && RuleIsParsed(c, d, def) && name in d.ids && !IsWordName(name)
    ensures d.ids[name] in d.synthesised
  {
    hide New, IsRule, IsKey, HasId;
    assert d.ids[name] != d.ids[def.name];
  }

  /** Compiles a grammar: fails where the reader fails, and leaves an empty state behind then. */
  method Parse(ts: seq<Src.Token>) returns (ok: bool, state: ParseState)
    requires NamesOk(ts)
    ensures fresh(state) && state.Valid() && ok == Src.ReadGrammar(ts, 0, []).Done?
    ensures ok ==> Compiled(state.View(), Src.ReadGrammar(ts, 0, []).value)
    ensures !ok ==> state.symbolIds == map[] && state.rules == []
  {
    state := new ParseState();
    var pos := 0;
    ghost var g: seq<Src.RuleDef> := [];
    while pos < |ts|
      invariant pos <= |ts| && fresh(state) && state.Valid()
      invariant Src.ReadGrammar(ts, 0, []) == Src.ReadGrammar(ts, pos, g)
      invariant Compiled(state.View(), g)
      decreases |ts| - pos
    {
      ghost var c, d := state.View(), Src.ReadRule(ts, pos);
      ok, pos := state.ParseRule(ts, pos);
      if !ok {
        state := new ParseState();
        return;
      }
      RuleIsCompiled(c, state.View(), g, d.value);
      g := g + [d.value];
    }
    ok := true;
  }
}
