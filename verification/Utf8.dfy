/** Incremental decoding of UTF-8 (`decode_utf8`): the code points of a valid text do not depend on where it is cut. */
module Utf8 {
  import opened Arithmetic

  type Bytes = seq<nat>

  // ---------------------------------------------------------------- Encoding (section 3 of RFC 3629)

  /** A code point that the decoder can give: up to 22 bits, beyond the end of Unicode at 0x10FFFF. */
  predicate IsDecodable(c: nat) {
    0 < c < 0x40_0000
  }

  function Encode(c: nat): Bytes {
    if c < 0x80 then [c]
    else if c < 0x800 then [0xC0 + c / 0x40, 0x80 + c % 0x40]
    else if c < 0x1_0000 then [0xE0 + c / 0x1000, 0x80 + c / 0x40 % 0x40, 0x80 + c % 0x40]
    else [0xF0 + c / 0x4_0000, 0x80 + c / 0x1000 % 0x40, 0x80 + c / 0x40 % 0x40, 0x80 + c % 0x40]
  }

  function EncodeAll(cs: seq<nat>): Bytes {
    if cs == [] then [] else Encode(cs[0]) + EncodeAll(cs[1..])
  }

  // ---------------------------------------------------------------- The decoder, byte by byte

  /** How many bytes follow a first byte; -1 for a byte that cannot come first. */
  function Remain(b: nat): int {
    if b < 0x80 then 0 else if b < 0xC0 then -1 else if b < 0xE0 then 1 else if b < 0xF0 then 2 else 3
  }

  /** The bits of a first byte that belong to the value. */
  function FirstBits(b: nat, n: nat): nat {
    if n == 0 then b % 0x80 else if n == 1 then b % 0x40 else if n == 2 then b % 0x20 else b % 0x10
  }

  /** The decoder between two bytes, and the code points that it has found. */
  datatype Decoder = Decoder(codePoints: seq<nat>, value: nat, nRemain: nat)

  function Feed(d: Decoder, b: nat): Decoder {
    if d.nRemain > 0 then
      var value := d.value * 0x40 + b % 0x40;
      Decoder(if d.nRemain == 1 then d.codePoints + [value] else d.codePoints, value, d.nRemain - 1)
    else
      var n := if Remain(b) < 0 then 0 else Remain(b);
      Decoder(if n == 0 then d.codePoints + [FirstBits(b, n)] else d.codePoints, FirstBits(b, n), n)
  }

  function FeedAll(d: Decoder, s: Bytes): Decoder
    decreases |s|
  {
    if s == [] then d else FeedAll(Feed(d, s[0]), s[1..])
  }

  /** First bytes and following bytes come where they should; the last sequence may be cut off. */
  predicate Regular(s: Bytes, n: nat) {
    s == [] ||
    (0 < s[0] < 0x100 && if n > 0 then s[0] / 0x40 == 2 && Regular(s[1..], n - 1)
                         else Remain(s[0]) >= 0 && Regular(s[1..], Remain(s[0])))
  }

  lemma {:induction false} FeedJoins(d: Decoder, s: Bytes, t: Bytes)
    ensures FeedAll(d, s + t) == FeedAll(FeedAll(d, s), t)
    decreases |s|
  {
    if s == [] {
      assert s + t == t;
    } else {
      assert (s + t)[1..] == s[1..] + t;
      FeedJoins(Feed(d, s[0]), s[1..], t);
    }
  }

  lemma {:induction false} RegularCut(d: Decoder, s: Bytes, t: Bytes)
    requires Regular(s + t, d.nRemain)
    ensures Regular(s, d.nRemain) && Regular(t, FeedAll(d, s).nRemain)
    decreases |s|
  {
    if s == [] {
      assert s + t == t;
    } else {
      assert (s + t)[1..] == s[1..] + t;
      RegularCut(Feed(d, s[0]), s[1..], t);
    }
  }

  /** What has been found before stays in front. */
  lemma {:induction false} FoundStays(d: Decoder, found: seq<nat>, s: Bytes)
    requires found <= d.codePoints
    ensures FeedAll(d, s) == FeedAll(d.(codePoints := d.codePoints[|found|..]), s).(codePoints :=
              found + FeedAll(d.(codePoints := d.codePoints[|found|..]), s).codePoints)
    decreases |s|
  {
    var rest := d.(codePoints := d.codePoints[|found|..]);
    assert d.codePoints == found + rest.codePoints;
    if s != [] {
      var next := Feed(d, s[0]);
      assert next.codePoints[|found|..] == Feed(rest, s[0]).codePoints;
      FoundStays(next, found, s[1..]);
    }
  }

  // ---------------------------------------------------------------- Decoding inverts encoding

  /** A first byte with `h` in its low bits. */
  lemma FedFirst(d: Decoder, b: nat, h: nat)
    requires d.nRemain == 0
    ensures b == h < 0x80 ==> Feed(d, b) == Decoder(d.codePoints + [h], h, 0)
    ensures b == 0xC0 + h < 0xE0 ==> Feed(d, b) == Decoder(d.codePoints, h, 1)
    ensures b == 0xE0 + h < 0xF0 ==> Feed(d, b) == Decoder(d.codePoints, h, 2)
    ensures b == 0xF0 + h < 0x100 ==> Feed(d, b) == Decoder(d.codePoints, h, 3)
  {
  }

  /** A following byte with `l` in its low bits. */
  lemma FedNext(d: Decoder, l: nat)
    requires d.nRemain > 0 && l < 0x40
    ensures Feed(d, 0x80 + l) == Decoder(if d.nRemain == 1 then d.codePoints + [d.value * 0x40 + l] else d.codePoints,
                                         d.value * 0x40 + l, d.nRemain - 1)
  {
  }

  /** A code point in digits of six bits. */
  lemma Digits(c: nat)
    ensures c / 0x40 * 0x40 + c % 0x40 == c
    ensures c / 0x1000 * 0x40 + c / 0x40 % 0x40 == c / 0x40
    ensures c / 0x4_0000 * 0x40 + c / 0x1000 % 0x40 == c / 0x1000
  {
  }

  lemma EncodeIsFed(c: nat, d: Decoder)
    requires IsDecodable(c) && d.nRemain == 0
    ensures var e := FeedAll(d, Encode(c)); e.nRemain == 0 && e.codePoints == d.codePoints + [c]
  {
    hide Feed;
    Digits(c);
    var f, cs := Encode(c), d.codePoints;
    FedFirst(d, f[0], c / if c < 0x80 then 1 else if c < 0x800 then 0x40 else if c < 0x1_0000 then 0x1000
      else 0x4_0000);
    if c < 0x80 {
      FeedOne(d, f[0]);
    } else if c < 0x800 {
      FeedTwo(d, f[0], f[1]);
      FedNext(Decoder(cs, c / 0x40, 1), c % 0x40);
    } else if c < 0x1_0000 {
      FeedThree(d, f[0], f[1], f[2]);
      FedNext(Decoder(cs, c / 0x1000, 2), c / 0x40 % 0x40);
      FedNext(Decoder(cs, c / 0x40, 1), c % 0x40);
    } else {
      FeedFour(d, f[0], f[1], f[2], f[3]);
      FedNext(Decoder(cs, c / 0x4_0000, 3), c / 0x1000 % 0x40);
      FedNext(Decoder(cs, c / 0x1000, 2), c / 0x40 % 0x40);
      FedNext(Decoder(cs, c / 0x40, 1), c % 0x40);
    }
  }

  lemma FeedOne(d: Decoder, b: nat)
    ensures FeedAll(d, [b]) == Feed(d, b)
  {
    assert FeedAll(Feed(d, b), [b][1..]) == Feed(d, b);
  }

  lemma FeedTwo(d: Decoder, a: nat, b: nat)
    ensures FeedAll(d, [a, b]) == Feed(Feed(d, a), b)
  {
    hide Feed;
    assert [a, b][1..] == [b];
    FeedOne(Feed(d, a), b);
  }

  lemma FeedThree(d: Decoder, a: nat, b: nat, c: nat)
    ensures FeedAll(d, [a, b, c]) == Feed(Feed(Feed(d, a), b), c)
  {
    hide Feed;
    assert [a, b, c][1..] == [b, c];
    FeedTwo(Feed(d, a), b, c);
  }

  lemma FeedFour(d: Decoder, a: nat, b: nat, c: nat, e: nat)
    ensures FeedAll(d, [a, b, c, e]) == Feed(Feed(Feed(Feed(d, a), b), c), e)
  {
    hide Feed;
    assert [a, b, c, e][1..] == [b, c, e];
    FeedThree(Feed(d, a), b, c, e);
  }

  lemma EncodeIsRegular(c: nat, rest: Bytes)
    requires IsDecodable(c) && Regular(rest, 0)
    ensures Regular(Encode(c) + rest, 0)
  {
    var s := Encode(c) + rest;
    if c < 0x80 {
      assert s[1..] == rest;
    } else if c < 0x800 {
      assert s[1..][1..] == rest;
    } else if c < 0x1_0000 {
      assert s[1..][1..][1..] == rest;
    } else {
      assert s[1..][1..][1..][1..] == rest;
      assert Regular(s[1..][1..][1..], 1);
      assert Regular(s[1..][1..], 2);
    }
  }

  lemma {:induction false} AllIsRegular(cs: seq<nat>)
    requires forall c <- cs :: IsDecodable(c)
    ensures Regular(EncodeAll(cs), 0)
  {
    if cs != [] {
      assert cs[0] in cs;
      AllIsRegular(cs[1..]);
      EncodeIsRegular(cs[0], EncodeAll(cs[1..]));
    }
  }

  /** Decoding the encoding of code points gives them back. */
  lemma {:induction false} DecodingInvertsEncoding(cs: seq<nat>, d: Decoder)
    requires (forall c <- cs :: IsDecodable(c)) && d.nRemain == 0
    ensures FeedAll(d, EncodeAll(cs)).codePoints == d.codePoints + cs && FeedAll(d, EncodeAll(cs)).nRemain == 0
    decreases |cs|
  {
    hide Encode, Feed;
    if cs != [] {
      assert cs[0] in cs;
      EncodeIsFed(cs[0], d);
      FeedJoins(d, Encode(cs[0]), EncodeAll(cs[1..]));
      DecodingInvertsEncoding(cs[1..], FeedAll(d, Encode(cs[0])));
      assert d.codePoints + [cs[0]] + cs[1..] == d.codePoints + cs;
    }
  }

  // ---------------------------------------------------------------- The method

  /** What is left of a text that ends inside a sequence: the value so far, and how many bytes are to follow. It is
      negative after an invalid sequence. */
  datatype Partial = Partial(value: nat, nRemain: int)

  /** At most three bytes are to follow, and the value has the bits of the bytes before. */
  predicate InReach(p: Partial) {
    p.nRemain <= 3 && (p.nRemain > 0 ==>
      p.value < if p.nRemain == 1 then 0x1_0000 else if p.nRemain == 2 then 0x400 else 0x10)
  }

  /** Decodes one chunk of text; the code points end in 0. */
  method DecodeUtf8(src: Bytes, partialStart: Partial) returns (codePoints: seq<nat>, partial: Partial)
    requires forall b <- src :: 0 < b < 0x100
    ensures partialStart.nRemain >= 0 && Regular(src, partialStart.nRemain) ==>
      var d := FeedAll(Decoder([], partialStart.value, partialStart.nRemain), src);
      codePoints == d.codePoints + [0] && partial == Partial(d.value, d.nRemain)
    ensures partialStart.nRemain >= 0 && partial.nRemain < 0 ==> codePoints == [0] && partial == Partial(0, -1)
    ensures InReach(partialStart) ==> InReach(partial)
  {
    hide Regular, FeedAll;
    var pos, value, nRemain := 0, partialStart.value, partialStart.nRemain;
    codePoints := [];
    ghost var ok := partialStart.nRemain >= 0 && Regular(src, partialStart.nRemain);
    ghost var goal := if ok then FeedAll(Decoder([], partialStart.value, partialStart.nRemain), src)
      else Decoder([], 0, 0);
    assert src[0..] == src;
    while pos < |src| && nRemain > 0
      invariant pos <= |src| && codePoints == []
      invariant if pos == 0 then nRemain == partialStart.nRemain else partialStart.nRemain > 0 && nRemain >= 0
      invariant InReach(partialStart) ==> InReach(Partial(value, nRemain))
      invariant ok ==> Regular(src[pos..], nRemain)
      invariant ok ==>
        FeedAll(Decoder(if nRemain == 0 && partialStart.nRemain > 0 then [value] else [], value, nRemain), src[pos..])
          == goal
      decreases |src| - pos
    {
      OneByte(Decoder([], value, nRemain), src, pos);
      if src[pos] / 0x40 != 2 {
        return [0], Partial(0, -1);
      }
      value := value * 0x40 + src[pos] % 0x40;
      JustOne(value);
      pos := pos + 1;
      nRemain := nRemain - 1;
    }
    JustOne(value);
    if partialStart.nRemain > 0 && nRemain == 0 {
      codePoints := codePoints + [value];
    }
    assert ok ==> FeedAll(Decoder(codePoints, value, nRemain), src[pos..]) == goal;
    while pos < |src|
      invariant pos <= |src| && (partialStart.nRemain >= 0 ==> nRemain >= 0)
      invariant InReach(partialStart) ==> InReach(Partial(value, nRemain))
      invariant ok ==> nRemain >= 0 && (pos < |src| ==> nRemain == 0) && Regular(src[pos..], nRemain)
      invariant ok ==> FeedAll(Decoder(codePoints, value, nRemain), src[pos..]) == goal
      decreases |src| - pos
    {
      if ok {
        OneByte(Decoder(codePoints, value, nRemain), src, pos);
      }
      nRemain := Remain(src[pos]);
      if nRemain < 0 {
        return [0], Partial(0, nRemain);
      }
      value := FirstBits(src[pos], nRemain);
      pos := pos + 1;
      while pos < |src| && nRemain > 0
        invariant pos <= |src| && nRemain >= 0 && InReach(Partial(value, nRemain))
        invariant ok ==> Regular(src[pos..], nRemain)
        invariant ok ==>
          var done := if nRemain == 0 then codePoints + [value] else codePoints;
          FeedAll(Decoder(done, value, nRemain), src[pos..]) == goal
        decreases |src| - pos
      {
        OneByte(Decoder(codePoints, value, nRemain), src, pos);
        value := value * 0x40 + src[pos] % 0x40;
        pos := pos + 1;
        nRemain := nRemain - 1;
      }
      if nRemain == 0 {
        codePoints := codePoints + [value];
      }
    }
    NothingToFeed(Decoder(codePoints, value, if nRemain < 0 then 0 else nRemain), src[pos..]);
    codePoints := codePoints + [0];
    partial := Partial(value, nRemain);
  }

  lemma JustOne(v: nat)
    ensures [] + [v] == [v]
  {
  }

  lemma NothingToFeed(d: Decoder, s: Bytes)
    ensures s == [] ==> FeedAll(d, s) == d
  {
  }

  lemma OneByte(d: Decoder, src: Bytes, pos: nat)
    requires pos < |src|
    ensures FeedAll(d, src[pos..]) == FeedAll(Feed(d, src[pos]), src[pos + 1..])
    ensures Regular(src[pos..], d.nRemain) ==>
      && Regular(src[pos + 1..], Feed(d, src[pos]).nRemain)
      && (if d.nRemain > 0 then src[pos] / 0x40 == 2 else Remain(src[pos]) >= 0)
  {
    assert src[pos..][1..] == src[pos + 1..] && src[pos..][0] == src[pos];
  }

  // ---------------------------------------------------------------- Any cut

  function Join(chunks: seq<Bytes>): Bytes {
    if chunks == [] then [] else chunks[0] + Join(chunks[1..])
  }

  ghost predicate AllBytes(s: Bytes) {
    forall b | b in s :: 0 < b < 0x100
  }

  lemma {:induction false} RegularBytes(s: Bytes, n: nat)
    requires Regular(s, n)
    ensures AllBytes(s)
    decreases |s|
  {
    if s != [] {
      RegularBytes(s[1..], if n > 0 then n - 1 else Remain(s[0]));
      assert s == [s[0]] + s[1..];
    }
  }

  /** Feeding from an empty list of code points, and appending them to those before. */
  lemma FeedAppends(found: seq<nat>, value: nat, n: nat, s: Bytes)
    ensures FeedAll(Decoder(found, value, n), s) ==
            FeedAll(Decoder([], value, n), s).(codePoints := found + FeedAll(Decoder([], value, n), s).codePoints)
  {
    FoundStays(Decoder(found, value, n), found, s);
    assert found[|found|..] == [];
  }

  /** Decodes chunks one after the other, as the tokens of a text are, and collects their code points. */
  method DecodeChunks(chunks: seq<Bytes>, ghost cs: seq<nat>) returns (codePoints: seq<nat>, partial: Partial)
    requires Join(chunks) == EncodeAll(cs) && forall c <- cs :: IsDecodable(c)
    ensures codePoints == cs && partial.nRemain == 0
  {
    hide FeedAll, Regular, Join, AllBytes;
    codePoints, partial := [], Partial(0, 0);
    AllIsRegular(cs);
    DecodingInvertsEncoding(cs, Decoder([], 0, 0));
    assert chunks[0..] == chunks;
    ghost var goal := FeedAll(Decoder([], 0, 0), EncodeAll(cs));
    for i := 0 to |chunks|
      invariant partial.nRemain >= 0 && Regular(Join(chunks[i..]), partial.nRemain)
      invariant FeedAll(Decoder(codePoints, partial.value, partial.nRemain), Join(chunks[i..])) == goal
    {
      ghost var d := Decoder(codePoints, partial.value, partial.nRemain);
      JoinFirst(chunks, i);
      RegularCut(d, chunks[i], Join(chunks[i + 1..]));
      RegularBytes(chunks[i], partial.nRemain);
      BytesAre(chunks[i]);
      FeedJoins(d, chunks[i], Join(chunks[i + 1..]));
      FeedAppends(codePoints, partial.value, partial.nRemain, chunks[i]);
      var more;
      more, partial := DecodeUtf8(chunks[i], partial);
      codePoints := codePoints + more[..|more| - 1];
    }
    NothingJoined(chunks[|chunks|..]);
    NothingToFeed(Decoder(codePoints, partial.value, partial.nRemain), Join(chunks[|chunks|..]));
  }

  lemma BytesAre(s: Bytes)
    requires AllBytes(s)
    ensures forall b <- s :: 0 < b < 0x100
  {
  }

  lemma JoinFirst(chunks: seq<Bytes>, i: nat)
    requires i < |chunks|
    ensures Join(chunks[i..]) == chunks[i] + Join(chunks[i + 1..])
  {
    assert chunks[i..][1..] == chunks[i + 1..];
  }

  lemma NothingJoined(chunks: seq<Bytes>)
    requires chunks == []
    ensures Join(chunks) == []
  {
  }
}
