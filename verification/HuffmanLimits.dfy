/** The two limits of the Huffman decoder are met by books that the setup accepts: places that the 16-bit fast table
cannot hold, and codewords longer than the bits that a refill guarantees. */
module HuffmanLimits {
  import opened Arithmetic
  import opened Bits
  import opened HuffmanTree
  import opened HuffmanCodes
  import opened HuffmanTables
  import opened HuffmanBook
  import opened HuffmanDecode
  import opened PacketReader

  // ---------------------------------------------------------------- A place that the fast table cannot hold

  /** 32767 codewords of 16 bits, and then one of a single bit. */
  function LateShort(): (lens: seq<nat>)
    ensures |lens| == FAST_LIMIT + 1 && LengthsOk(lens)
  {
    seq(FAST_LIMIT + 1, i requires 0 <= i <= FAST_LIMIT => if i < FAST_LIMIT then 16 else 1)
  }

  lemma {:induction false} LateKraft(k: nat)
    requires k <= FAST_LIMIT
    ensures KraftSum(LateShort(), k) == k * Size(16)
  {
    hide Pow2;
    if k > 0 {
      LateKraft(k - 1);
    }
  }

  lemma LateShortFits()
    ensures !Assign(LateShort(), |LateShort()|).Overfull?
  {
    var lens := LateShort();
    FailsIffOverfull(lens);
    LateKraft(FAST_LIMIT);
    Sizes();
    assert KraftSum(lens, |lens|) == KraftSum(lens, FAST_LIMIT) + Size(1);
  }

  lemma Sizes()
    ensures Size(16) == 65536 && Size(1) == 2147483648 && WORD == 4294967296
  {
    assert Pow2(4) == 16;
    assert Pow2(8) == 256;
    assert Pow2(12) == 4096;
    assert Pow2(16) == 65536;
    Pow2Add(16, 15);
    Pow2Add(16, 16);
    assert Pow2(15) == 32768;
  }

  /** The setup accepts the book, and its last codeword, the shortest, can never be found. */
  method ShortCodewordIsLost() returns (c: Codebook, ghost leaves: seq<Leaf>, ghost i: nat)
    ensures BookOk(c.View(), LateShort(), leaves) && i < |leaves|
    ensures leaves[i].symbol == FAST_LIMIT && leaves[i].len == 1 && !Reachable(c.View(), leaves[i])
  {
    hide Assign, TablesOk, FastOk;
    var lens := LateShort();
    LateShortFits();
    c := new Codebook();
    var ok;
    ok, leaves := c.SetUp(lens, false);
    LongIsSorted(c.View(), lens, leaves, 0);
    i := LastLeaf(c.View(), lens, leaves, FAST_LIMIT);
  }

  lemma LastLeaf(b: Book, lens: seq<nat>, leaves: seq<Leaf>, s: nat) returns (i: nat)
    requires TablesOk(b, lens, leaves) && s < |lens| && lens[s] != NO_CODE
    ensures i < |leaves| && leaves[i].symbol == s && leaves[i].len == lens[s]
  {
    EntryIsLeaf(lens, leaves, s);
    i := Coded(lens, s);
  }

  lemma LongIsSorted(b: Book, lens: seq<nat>, leaves: seq<Leaf>, s: nat)
    requires TablesOk(b, lens, leaves) && s < |lens| && FAST_LENGTH < lens[s] != NO_CODE
    ensures b.sortedEntries > 0
  {
    hide Apart, LeavesAre, Entered, ValuesAre;
    EntryIsLeaf(lens, leaves, s);
    SortAddrsHas(b.sparse, leaves, Coded(lens, s));
  }

  // ---------------------------------------------------------------- A codeword that the accumulator does not hold

  lemma {:induction false} ZeroBytes(n: nat)
    ensures ByteBits(seq(n, _ => 0)) == BitsOf(0, 8 * n)
  {
    if n > 0 {
      var bytes: seq<nat> := seq(n, _ => 0);
      assert bytes[1..] == seq(n - 1, _ => 0);
      ZeroBytes(n - 1);
      assert 0 == 0 + 0 * Pow2(8);
      BitsJoin(0, 8, 0, 8 * (n - 1));
    }
  }

  /** A reader at the start of a packet of five zero bytes. */
  method FiveZeroBytes() returns (f: Vorb)
    ensures fresh(f) && f.Refillable() && f.validBits == 0 && f.Pending() == BitsOf(0, 40)
  {
    hide Ends, Pow2, CursorOk, UnreadAt, AllOk, EndsAt, ByteBits, BitsOf;
    var bytes: seq<nat> := [0, 0, 0, 0, 0];
    var page := Page([5], bytes, false);
    PageIsOk(page);
    f := new Vorb([page]);
    var ok := f.StartPacket();
    assert f.Here() == Cursor([5], bytes, 0, false, []);
    OneSegment(bytes);
    NothingHeld(f.acc, bytes);
    ZeroBytes(5);
    assert seq(5, _ => 0) == bytes;
  }

  lemma PageIsOk(page: Page)
    requires page == Page([5], [0, 0, 0, 0, 0], false)
    ensures AllOk([page])
  {
    assert Sum(page.segments) == 5 by { assert Sum(page.segments[1..]) == 0; }
  }

  lemma NothingHeld(acc: nat, bytes: seq<nat>)
    ensures PendingAt(acc, 0, bytes) == ByteBits(bytes)
  {
  }

  lemma OneSegment(bytes: seq<nat>)
    requires |bytes| == 5
    ensures Rest([5], bytes, []) == bytes && UnreadAt(Cursor([5], bytes, 0, false, [])) == bytes
  {
    assert bytes[..5] == bytes && bytes[0..] == bytes;
  }

  /** 33 pending bits in whatever split, refilled, leave 25 in the accumulator. */
  lemma RefilledTo25(valid: nat, unread: nat)
    requires valid + 8 * unread == 33 && valid <= 32
    ensures Refilled(valid, unread) == 25
  {
    assert unread == 1 || unread == 2 || unread == 3 || unread == 4;
  }

  lemma OneLeaf(lens: seq<nat>)
    requires lens == [26] && LengthsOk(lens)
    ensures !Assign(lens, 1).Overfull? && LeavesOf(Assign(lens, 1)) == [Leaf(0, 0, 26)]
  {
    assert Assign(lens, 0).NotStarted?;
  }

  lemma ZeroPending(pending: BitString, leaf: Leaf)
    requires pending == BitsOf(0, 40)[7..] && leaf == Leaf(0, 0, 26)
    ensures |pending| == 33 && StartsWith(pending, leaf)
  {
    BitsSplit(0, 40, 7);
    HighOfZero(7);
    BitsSplit(0, 33, 26);
    RevZero(32);
  }

  lemma {:induction false} HighOfZero(n: nat)
    ensures High(0, n) == 0
  {
    if n > 0 {
      HighOfZero(n - 1);
    }
  }

  lemma NotDecoded(b: Book, leaf: Leaf, finds: bool, pending: BitString, v: int, after: BitString, exact: bool)
    requires Decodes(b, [leaf], 0, finds, pending, 25, v, after, exact) && StartsWith(pending, leaf)
    requires !b.sparse && leaf == Leaf(0, 0, 26) && -1 <= v < 1
    ensures v == -1
  {
    assert !Denotes(b, leaf, v);
  }

  /** A book with one codeword of 26 bits, and a packet of five bytes of which seven bits have been read: all 26 bits of
      the codeword are pending, but the accumulator is refilled to 25, and the codeword is not decoded. */
  method LongCodewordIsLost() returns (v: int, ghost pending: BitString, ghost leaf: Leaf)
    ensures StartsWith(pending, leaf) && leaf.len == 26 && |pending| == 33 && v == -1
  {
    hide TablesOk, FastOk, Decodes, PendingAt, EndsAt, UnreadAt, BitsOf, CursorOk, Assign, StartsWith, Filled;
    var lens: seq<nat> := [26];
    OneLeaf(lens);
    var c := new Codebook();
    var ok;
    ghost var leaves;
    ok, leaves := c.SetUp(lens, false);
    OneLength(c.View(), lens, leaves);
    var f := FiveZeroBytes();
    var seven := f.GetBits(7);
    pending, leaf := f.Pending(), leaves[0];
    ZeroPending(pending, leaf);
    PendingLength(f.acc, f.validBits, f.Unread());
    RefilledTo25(f.validBits, |f.Unread()|);
    ghost var b, exact := c.View(), StaysOwn(f);
    v := DecodeRaw(f, c, lens, leaves, 0);
    NotDecoded(b, leaf, Reachable(b, leaf), pending, v, f.Pending(), exact);
  }

  lemma OneLength(b: Book, lens: seq<nat>, leaves: seq<Leaf>)
    requires TablesOk(b, lens, leaves) && lens == [26] && !b.sparse
    ensures |b.lengths| == 1
  {
  }
}
