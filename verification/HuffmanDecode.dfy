/** Decoding codewords from a packet (`DECODE_RAW`, `codebook_decode_scalar_raw`, `DECODE`): the fast table, the binary
search and the linear search select the same entry. */
module HuffmanDecode {
  import opened Bits
  import opened HuffmanTree
  import opened HuffmanCodes
  import opened HuffmanTables
  import opened HuffmanBook
  import opened PacketReader

  // ---------------------------------------------------------------- Codewords as bit strings

  /** The codeword of a leaf, in the order of its bits in a packet. */
  function CodeBits(l: Leaf): BitString {
    BitsOf(Rev(l.addr, 32), l.len)
  }

  predicate StartsWith(bits: BitString, l: Leaf) {
    l.len <= |bits| && bits[..l.len] == CodeBits(l)
  }

  lemma {:induction false} BitsOfLow(x: nat, k: nat)
    ensures BitsOf(Low(x, k), k) == BitsOf(x, k)
  {
    if k > 0 {
      BitsOfLow(x / 2, k - 1);
      Halve(x % 2, Low(x / 2, k - 1));
    }
  }

  lemma ValueOfCode(l: Leaf)
    requires LeafOk(l)
    ensures Value(CodeBits(l)) == Rev(l.addr, 32) == Low(Rev(l.addr, 32), l.len)
  {
    hide Value, Rev, BitsOf, Low;
    BeginsIffInLeaf(0, l);
    LowOfSmall(Rev(l.addr, 32), l.len);
    ValueOfBits(Rev(l.addr, 32), l.len);
  }

  /** Bits start with a codeword exactly when the accumulator that holds them begins with it. */
  lemma AccumulatorBegins(acc: nat, v: nat, unread: seq<nat>, l: Leaf)
    requires LeafOk(l) && l.len <= v && acc < Pow2(v)
    ensures StartsWith(PendingAt(acc, v, unread), l) <==> Begins(acc, l)
  {
    hide Value, Rev, BitsOf, Low, Pow2, LeafOk;
    BitsAreTaken(acc, v, l.len, unread);
    ValueOfCode(l);
    BitsSplit(acc, v, l.len);
    BitsOfLow(acc, l.len);
    CutSum(BitsOf(acc, v), ByteBits(unread), l.len);
  }

  /** No word begins with two codewords, ... */
  lemma OneBegins(leaves: seq<Leaf>, x: nat, i: nat, j: nat)
    requires Apart(leaves) && x < WORD && i < |leaves| && j < |leaves| && Begins(x, leaves[i]) && Begins(x, leaves[j])
    ensures i == j
  {
    hide Begins;
    BeginsIffInLeaf(x, leaves[i]);
    BeginsIffInLeaf(x, leaves[j]);
  }

  /** ... and so no bits start with two codewords. */
  lemma OneStarts(leaves: seq<Leaf>, bits: BitString, i: nat, j: nat)
    requires Apart(leaves) && i < |leaves| && j < |leaves| && StartsWith(bits, leaves[i]) && StartsWith(bits, leaves[j])
    ensures i == j
  {
    if leaves[i].len <= leaves[j].len {
      ShorterStarts(leaves, bits, i, j);
    } else {
      ShorterStarts(leaves, bits, j, i);
    }
  }

  lemma ShorterStarts(leaves: seq<Leaf>, bits: BitString, i: nat, j: nat)
    requires Apart(leaves) && i < |leaves| && j < |leaves| && StartsWith(bits, leaves[i]) && StartsWith(bits, leaves[j])
    requires leaves[i].len <= leaves[j].len
    ensures i == j
  {
    hide Value, Rev, BitsOf, Low, Apart;
    LeafIsOk(leaves, i);
    LeafIsOk(leaves, j);
    var w := Rev(leaves[j].addr, 32);
    ValueOfCode(leaves[i]);
    ValueOfCode(leaves[j]);
    BitsSplit(w, leaves[j].len, leaves[i].len);
    ValueOfBits(w, leaves[i].len);
    assert bits[..leaves[j].len][..leaves[i].len] == bits[..leaves[i].len];
    OneBegins(leaves, w, i, j);
  }

  lemma LeafIsOk(leaves: seq<Leaf>, i: nat)
    requires Apart(leaves) && i < |leaves|
    ensures LeafOk(leaves[i])
  {
  }

  // ---------------------------------------------------------------- Selecting an entry

  ghost predicate BookOk(b: Book, lens: seq<nat>, leaves: seq<Leaf>) {
    TablesOk(b, lens, leaves) && FastOk(b, leaves, b.fast, FAST_LIMIT)
  }

  /** The book is searched by halving. */
  predicate Halves(b: Book) {
    if b.entries > 8 then b.sortedEntries > 0 else b.sparse
  }

  /** The slow path finds a leaf unless it is short and the search by halving leaves it to the fast table. */
  predicate SlowFinds(b: Book, l: Leaf) {
    IncludeInSort(b.sparse, l.len) || !Halves(b)
  }

  /** Leaf `i` is found when the pending bits start with it. */
  predicate Reachable(b: Book, l: Leaf) {
    b.sparse || l.len > FAST_LENGTH || l.symbol < FAST_LIMIT || b.sortedEntries == 0
  }

  /** Place `v` has been selected for the accumulator `acc`, and denotes leaf `j`. When the pending bits start with
      leaf `i`, it is the selected one if it is in the accumulator and can be found, and only then. */
  ghost predicate Selects(b: Book, leaves: seq<Leaf>, acc: nat, valid: int, i: nat, finds: bool, v: int, j: nat) {
    && j < |leaves| && Denotes(b, leaves[j], v)
    && (i < |leaves| && leaves[i].len <= valid && Begins(acc, leaves[i]) && finds ==> i == j)
    && (i < |leaves| && !finds ==> i != j)
  }

  /** The outcome of decoding one codeword. If not `exact`, bits of the next packet may stand behind what is left. */
  ghost predicate Decodes(b: Book, leaves: seq<Leaf>, i: nat, finds: bool, before: BitString, filled: int,
                          v: int, after: BitString, exact: bool) {
    i < |leaves| && StartsWith(before, leaves[i]) ==>
      && (Denotes(b, leaves[i], v) <==> finds && leaves[i].len <= filled)
      && (Denotes(b, leaves[i], v) ==> GoesOn(after, before[leaves[i].len..], exact))
  }

  /** `bits` begins with the packet's bits `rest`, and is no more than them if `exact`. */
  predicate GoesOn(bits: BitString, rest: BitString, exact: bool) {
    rest <= bits && (exact ==> bits == rest)
  }

  /** What has been decoded from bits that begin with `before`, and are no more than them if `exact`, has been decoded
      from `before`. */
  lemma DecodesFront(b: Book, leaves: seq<Leaf>, i: nat, finds: bool, before: BitString, filled: int, bits: BitString,
                     filled': int,
                     v: int, after: BitString, exact: bool, exact': bool)
    requires Decodes(b, leaves, i, finds, bits, filled', v, after, exact') && GoesOn(bits, before, exact) &&
      (exact ==> exact')
    requires i < |leaves| && StartsWith(before, leaves[i]) ==> (leaves[i].len <= filled <==> leaves[i].len <= filled')
    ensures Decodes(b, leaves, i, finds, before, filled, v, after, exact)
  {
    if i < |leaves| && StartsWith(before, leaves[i]) {
      assert bits[..|before|] == before;
      assert bits[..leaves[i].len] == before[..leaves[i].len];
      assert before[leaves[i].len..] <= bits[leaves[i].len..];
    }
  }

  /** A selected entry is returned if its codeword is in the accumulator. */
  lemma SelectionDecodes(b: Book, lens: seq<nat>, leaves: seq<Leaf>, acc: nat, valid: nat, unread: seq<nat>, i: nat,
                         finds: bool,
                         p: int, j: nat, v: int, after: BitString)
    requires TablesOk(b, lens, leaves) && Selects(b, leaves, acc, valid, i, finds, p, j)
    requires acc < Pow2(valid)
    requires leaves[j].len <= valid ==> v == p && after == PendingAt(acc, valid, unread)[leaves[j].len..]
    requires leaves[j].len > valid ==> v == -1
    ensures Decodes(b, leaves, i, finds, PendingAt(acc, valid, unread), valid, v, after, true)
  {
    hide SortOk, Entered, LeavesAre, PendingAt, Pow2, Begins, CodeBits, Denotes;
    if i < |leaves| && StartsWith(PendingAt(acc, valid, unread), leaves[i]) {
      LeafIsOk(leaves, i);
      if leaves[i].len <= valid {
        AccumulatorBegins(acc, valid, unread, leaves[i]);
      }
      NothingDenoted(b, leaves[i]);
      if leaves[j].len <= valid && Denotes(b, leaves[i], p) {
        DenotesOne(b, lens, leaves, i, j, p);
      }
    }
  }

  lemma NothingDenoted(b: Book, l: Leaf)
    ensures !Denotes(b, l, -1)
  {
  }

  // ---------------------------------------------------------------- The binary search

  /** The place that the binary search gives denotes a leaf; it is the one whose codeword the accumulator begins
      with. */
  lemma SearchSelects(b: Book, lens: seq<nat>, leaves: seq<Leaf>, acc: nat, valid: int, x: nat, i: nat) returns (j: nat)
    requires TablesOk(b, lens, leaves) && x < b.sortedEntries
    requires 0 <= valid <= 32 ==> acc < Pow2(valid)
    requires valid <= 32
    requires forall k: nat | k < b.sortedEntries && LastAtMost(b.sortedCodewords, b.sortedEntries, Rev(acc, 32), k) ::
      x == k
    ensures b.sparse || x < |b.sortedValues|
    ensures var v := if b.sparse then x else b.sortedValues[x];
      && Selects(b, leaves, acc, valid, i, i < |leaves| && IncludeInSort(b.sparse, leaves[i].len), v, j)
      && v < |b.lengths| && b.lengths[v] == leaves[j].len
  {
    hide Entered, LeavesAre, Rev, LastAtMost, Begins;
    j := SortedLeaf(b, lens, leaves, x);
    DenotesLength(b, lens, leaves, j, if b.sparse then x else b.sortedValues[x]);
    if i < |leaves| && IncludeInSort(b.sparse, leaves[i].len) && leaves[i].len <= valid && Begins(acc, leaves[i]) {
      LeafIsOk(leaves, i);
      AccumulatorFits(acc, valid);
      BeginsIffInLeaf(acc, leaves[i]);
      var k := PlaceOfLeaf(b.sparse, leaves, b.sortedCodewords, b.sortedEntries, i);
      SameAddr(leaves, i, j);
    }
  }

  lemma AccumulatorFits(acc: nat, valid: nat)
    requires valid <= 32 && acc < Pow2(valid)
    ensures acc < WORD
  {
    Pow2Monotone(valid, 32);
  }

  /** The leaf of a sorted codeword. */
  lemma SortedLeaf(b: Book, lens: seq<nat>, leaves: seq<Leaf>, x: nat) returns (j: nat)
    requires TablesOk(b, lens, leaves) && x < b.sortedEntries
    ensures x < |b.sortedCodewords| && x < |b.sortedValues|
    ensures j < |leaves| && IncludeInSort(b.sparse, leaves[j].len) && leaves[j].addr == b.sortedCodewords[x]
    ensures Denotes(b, leaves[j], if b.sparse then x else b.sortedValues[x])
  {
    hide Entered, LeavesAre, Apart, Ascending;
    assert b.sortedCodewords[..b.sortedEntries][x] in b.sortedCodewords[..b.sortedEntries];
    j := SortAddrsOnly(b.sparse, leaves, b.sortedCodewords[x]);
    assert ValueAt(b.sparse, leaves[j], x, b.sortedValues, b.lengths);
  }

  // ---------------------------------------------------------------- The linear search

  ghost predicate NoneBegins(leaves: seq<Leaf>, acc: nat, k: nat) {
    forall j | 0 <= j < |leaves| && leaves[j].symbol < k :: !Begins(acc, leaves[j])
  }

  /** Tests the entries in turn. */
  method LinearSearch(c: Codebook, acc: nat, ghost lens: seq<nat>, ghost leaves: seq<Leaf>)
    returns (v: int, ghost j: nat)
    requires TablesOk(c.View(), lens, leaves) && !c.sparse
    ensures v == -1 ==> NoneBegins(leaves, acc, c.entries)
    ensures v != -1 ==> 0 <= v < |c.codewordLengths| && j < |leaves| && Denotes(c.View(), leaves[j], v)
    ensures v != -1 ==> Begins(acc, leaves[j]) && c.codewordLengths[v] == leaves[j].len
  {
    hide Begins, SortOk, Entered, Apart;
    j := 0;
    NoneBeginsYet(leaves, acc);
    for k := 0 to c.entries
      invariant NoneBegins(leaves, acc, k)
    {
      if c.codewordLengths[k] != NO_CODE {
        j := PlaceDenotes(c.View(), lens, leaves, k);
        DenotesLength(c.View(), lens, leaves, j, k);
        TestBegins(acc, leaves[j]);
        if c.codewords[k] == Low(acc, c.codewordLengths[k]) {
          return k, j;
        }
        OneMoreTested(c.View(), lens, leaves, acc, k, j);
      } else {
        NoneToTest(c.View(), lens, leaves, acc, k);
      }
    }
    v := -1;
  }

  lemma TestBegins(acc: nat, l: Leaf)
    ensures Begins(acc, l) <==> Rev(l.addr, 32) == Low(acc, l.len)
  {
  }

  lemma NoneBeginsYet(leaves: seq<Leaf>, acc: nat)
    ensures NoneBegins(leaves, acc, 0)
  {
  }

  lemma OneMoreTested(b: Book, lens: seq<nat>, leaves: seq<Leaf>, acc: nat, k: nat, j: nat)
    requires TablesOk(b, lens, leaves) && !b.sparse && NoneBegins(leaves, acc, k)
    requires j < |leaves| && Denotes(b, leaves[j], k) && !Begins(acc, leaves[j])
    ensures NoneBegins(leaves, acc, k + 1)
  {
    hide Begins, TablesOk;
    forall i | 0 <= i < |leaves| && leaves[i].symbol < k + 1
      ensures !Begins(acc, leaves[i])
    {
      if leaves[i].symbol == k {
        DenotesOne(b, lens, leaves, i, j, k);
      }
    }
  }

  lemma NoneToTest(b: Book, lens: seq<nat>, leaves: seq<Leaf>, acc: nat, k: nat)
    requires TablesOk(b, lens, leaves) && !b.sparse && NoneBegins(leaves, acc, k)
    requires k < |b.lengths| && b.lengths[k] == NO_CODE
    ensures NoneBegins(leaves, acc, k + 1)
  {
    hide Begins, SortOk, Entered, Apart, LeavesAre;
    forall i | 0 <= i < |leaves| && leaves[i].symbol < k + 1
      ensures !Begins(acc, leaves[i])
    {
      LeafLength(lens, leaves, i);
    }
  }

  // ---------------------------------------------------------------- The slow path

  /** What the slow path selects for an accumulator: a place and its leaf, or nothing. */
  method SelectSlow(c: Codebook, acc: nat, ghost lens: seq<nat>, ghost leaves: seq<Leaf>, ghost valid: int,
                    ghost i: nat)
    returns (v: int, ghost j: nat)
    requires TablesOk(c.View(), lens, leaves) && !(c.sparse && c.sortedEntries == 0)
    requires valid <= 32 && (0 <= valid ==> acc < Pow2(valid))
    ensures v == -1 || 0 <= v < |c.codewordLengths|
    ensures v != -1 ==> Selects(c.View(), leaves, acc, valid, i, i < |leaves| && SlowFinds(c.View(), leaves[i]), v, j)
    ensures v != -1 ==> c.codewordLengths[v] == leaves[j].len
    ensures v == -1 && i < |leaves| ==> SlowFinds(c.View(), leaves[i]) && !Begins(acc, leaves[i])
  {
    hide TablesOk, Begins, Rev, Ascending;
    ghost var b := c.View();
    TablesAre(b, lens, leaves);
    if (if c.entries > 8 then c.sortedEntries > 0 else c.sparse) {
      var x := SearchSorted(c.sortedCodewords, c.sortedEntries, Rev(acc, 32));
      j := SearchSelects(b, lens, leaves, acc, valid, x, i);
      v := if c.sparse then x else c.sortedValues[x];
    } else {
      v, j := LinearSearch(c, acc, lens, leaves);
      if v != -1 {
        LinearSelects(b, lens, leaves, acc, valid, i, v, j);
      } else if i < |leaves| {
        SymbolIsEntry(b, lens, leaves, i);
      }
    }
  }

  lemma TablesAre(b: Book, lens: seq<nat>, leaves: seq<Leaf>)
    requires TablesOk(b, lens, leaves)
    ensures b.sortedEntries <= |b.sortedCodewords| && Ascending(b.sortedCodewords[..b.sortedEntries])
  {
  }

  lemma SymbolIsEntry(b: Book, lens: seq<nat>, leaves: seq<Leaf>, i: nat)
    requires TablesOk(b, lens, leaves) && i < |leaves|
    ensures leaves[i].symbol < b.entries
  {
    hide SortOk, Entered, Apart, LeavesAre;
    LeafLength(lens, leaves, i);
  }

  lemma LinearSelects(b: Book, lens: seq<nat>, leaves: seq<Leaf>, acc: nat, valid: int, i: nat, v: int, j: nat)
    requires TablesOk(b, lens, leaves) && valid <= 32 && (0 <= valid ==> acc < Pow2(valid))
    requires j < |leaves| && Denotes(b, leaves[j], v) && Begins(acc, leaves[j])
    ensures Selects(b, leaves, acc, valid, i, true, v, j)
  {
    hide SortOk, Entered, LeavesAre, Begins;
    if i < |leaves| && leaves[i].len <= valid && Begins(acc, leaves[i]) {
      AccumulatorFits(acc, valid);
      OneBegins(leaves, acc, i, j);
    }
  }

  lemma NoSelectionDecodes(b: Book, lens: seq<nat>, leaves: seq<Leaf>, acc: nat, valid: nat, unread: seq<nat>, i: nat,
                           finds: bool,
                           after: BitString)
    requires TablesOk(b, lens, leaves) && acc < Pow2(valid) && (i < |leaves| ==> finds && !Begins(acc, leaves[i]))
    ensures Decodes(b, leaves, i, finds, PendingAt(acc, valid, unread), valid, -1, after, true)
  {
    hide SortOk, Entered, LeavesAre, PendingAt, Pow2, Begins, CodeBits, Denotes;
    if i < |leaves| {
      LeafIsOk(leaves, i);
      NothingDenoted(b, leaves[i]);
      if leaves[i].len <= valid {
        AccumulatorBegins(acc, valid, unread, leaves[i]);
      }
    }
  }

  lemma NoBitsDecode(b: Book, lens: seq<nat>, leaves: seq<Leaf>, i: nat, finds: bool, acc: nat, valid: int,
                     unread: seq<nat>,
                     v: int, after: BitString, exact: bool)
    requires TablesOk(b, lens, leaves) && valid < 0 && unread == []
    ensures Decodes(b, leaves, i, finds, PendingAt(acc, valid, unread), valid, v, after, exact)
  {
    hide SortOk, Entered, LeavesAre;
    if i < |leaves| {
      LeafIsOk(leaves, i);
    }
  }

  lemma EmptyBookDecodes(b: Book, lens: seq<nat>, leaves: seq<Leaf>, i: nat, finds: bool, before: BitString,
                         filled: int, v: int,
                         after: BitString)
    requires TablesOk(b, lens, leaves) && b.sparse && b.sortedEntries == 0
    ensures Decodes(b, leaves, i, finds, before, filled, v, after, true)
  {
    hide LeavesAre, Entered, Apart;
    forall j | 0 <= j < |leaves|
      ensures leaves[j].len != NO_CODE
    {
      LeafLength(lens, leaves, j);
    }
    AllAreSorted(leaves);
  }

  /** How full the accumulator is after a refill. */
  function Refilled(valid: int, unread: nat): int {
    if valid < 0 then valid else Filled(valid, unread)
  }

  /** Takes a selected codeword off the accumulator, if it is all there. */
  method TakeCodeword(f: Vorb, len: nat, p: int) returns (v: int)
    requires f.Open() && (f.validBits >= 0 ==> f.acc < Pow2(f.validBits))
    modifies f`acc, f`validBits
    ensures f.Open() && f.validBits >= 0
    ensures len <= old(f.validBits) ==> v == p && f.Pending() == old(f.Pending())[len..]
    ensures len > old(f.validBits) ==> v == -1
  {
    hide Pow2, UnreadAt, CursorOk;
    if f.validBits >= len {
      var z := f.Take(len, f.Unread());
      v := p;
    } else {
      f.validBits := 0;
      v := -1;
    }
  }

  /** The pending bits stay the packet's own when the reader is refilled. */
  ghost predicate StaysOwn(f: Vorb)
    requires f.Paged()
    reads f
  {
    |f.Pending()| > 24 || f.HasEnd()
  }

  /** The slow path: by halving the sorted codewords, or through all entries of a small book. */
  method CodebookDecodeScalarRaw(f: Vorb, c: Codebook, ghost lens: seq<nat>, ghost leaves: seq<Leaf>, ghost i: nat)
    returns (v: int)
    requires f.Refillable() && TablesOk(c.View(), lens, leaves)
    modifies f
    ensures f.Refillable() && (v == -1 || 0 <= v < |c.codewordLengths|)
    ensures Decodes(c.View(), leaves, i, i < |leaves| && SlowFinds(c.View(), leaves[i]), old(f.Pending()),
                    Refilled(old(f.validBits), |old(f.Unread())|), v, f.Pending(), old(StaysOwn(f)))
    ensures old(f.HasEnd()) ==> f.HasEnd()
  {
    hide TablesOk, Pow2, PendingAt, UnreadAt, CursorOk, Decodes, Selects, Filled, Begins, EndsAt;
    ghost var _ := f.PrepHuffman();
    ghost var b, before := c.View(), f.Pending();
    if c.sparse && c.sortedEntries == 0 {
      EmptyBookDecodes(b, lens, leaves, i, i < |leaves| && SlowFinds(b, leaves[i]), before, f.validBits, -1, before);
      DecodesFront(b, leaves, i, i < |leaves| && SlowFinds(b, leaves[i]), old(f.Pending()), f.validBits, before,
        f.validBits, -1, before,
                   old(StaysOwn(f)), true);
      return -1;
    }
    ghost var acc, valid, unread := f.acc, f.validBits, f.Unread();
    var p;
    ghost var j;
    p, j := SelectSlow(c, f.acc, lens, leaves, valid, i);
    if p != -1 {
      v := TakeCodeword(f, c.codewordLengths[p], p);
      if valid >= 0 {
        SelectionDecodes(b, lens, leaves, acc, valid, unread, i, i < |leaves| && SlowFinds(b, leaves[i]), p, j, v,
          f.Pending());
      }
    } else {
      f.validBits := 0;
      v := -1;
      if valid >= 0 {
        NoSelectionDecodes(b, lens, leaves, acc, valid, unread, i, i < |leaves| && SlowFinds(b, leaves[i]),
          f.Pending());
      }
    }
    if valid < 0 {
      NoBitsDecode(b, lens, leaves, i, i < |leaves| && SlowFinds(b, leaves[i]), acc, valid, unread, v, f.Pending(),
        true);
    }
    DecodesFront(b, leaves, i, i < |leaves| && SlowFinds(b, leaves[i]), old(f.Pending()), valid, before, valid, v,
      f.Pending(),
                 old(StaysOwn(f)), true);
  }

  // ---------------------------------------------------------------- The fast path

  lemma LowIndex(acc: nat)
    ensures Low(acc, FAST_LENGTH) < FAST_SIZE
  {
    assert Pow2(5) == 32;
  }

  /** A short codeword is all in the low bits. */
  lemma ShortBegins(acc: nat, l: Leaf)
    requires l.len <= FAST_LENGTH
    ensures Begins(Low(acc, FAST_LENGTH), l) <==> Begins(acc, l)
  {
    hide Low, Rev;
    LowOfLow(acc, l.len, FAST_LENGTH);
  }

  /** The leaf of a hit is the one that the pending bits start with. */
  lemma HitIsLeaf(leaves: seq<Leaf>, acc: nat, valid: nat, unread: seq<nat>, i: nat, j: nat)
    requires Apart(leaves) && acc < Pow2(valid) && valid <= 32 && (valid >= FAST_LENGTH || unread == [])
    requires j < |leaves| && leaves[j].len <= FAST_LENGTH && Begins(acc, leaves[j])
    requires i < |leaves| && StartsWith(PendingAt(acc, valid, unread), leaves[i])
    ensures i == j && leaves[i].len <= valid
  {
    hide Apart, Begins, PendingAt, CodeBits, Pow2;
    LeafIsOk(leaves, i);
    LeafIsOk(leaves, j);
    PendingLength(acc, valid, unread);
    if leaves[i].len <= valid {
      AccumulatorBegins(acc, valid, unread, leaves[i]);
      AccumulatorFits(acc, valid);
      OneBegins(leaves, acc, i, j);
    } else {
      AccumulatorBegins(acc, valid, unread, leaves[j]);
      OneStarts(leaves, PendingAt(acc, valid, unread), i, j);
    }
  }

  /** A hit decodes the codeword that the pending bits start with. */
  lemma HitDecodes(b: Book, lens: seq<nat>, leaves: seq<Leaf>, acc: nat, valid: nat, unread: seq<nat>, i: nat, p: int,
                   j: nat,
                   filled: int, v: int, after: BitString)
    requires BookOk(b, lens, leaves) && acc < Pow2(valid) && valid <= 32 && (valid >= FAST_LENGTH || unread == [])
    requires j < |leaves| && leaves[j].len <= FAST_LENGTH && Begins(acc, leaves[j]) && Denotes(b, leaves[j], p) &&
      p < FAST_LIMIT
    requires valid <= filled
    requires leaves[j].len <= valid ==> v == p && after == PendingAt(acc, valid, unread)[leaves[j].len..]
    ensures Decodes(b, leaves, i, i < |leaves| && Reachable(b, leaves[i]), PendingAt(acc, valid, unread), filled, v,
      after, true)
  {
    hide SortOk, Entered, LeavesAre, PendingAt, Pow2, Begins, FastOk, StartsWith, Apart;
    if i < |leaves| && StartsWith(PendingAt(acc, valid, unread), leaves[i]) {
      HitIsLeaf(leaves, acc, valid, unread, i, j);
    }
  }

  lemma WantedIsThere(b: Book, lens: seq<nat>, leaves: seq<Leaf>, z: nat, i: nat)
    requires BookOk(b, lens, leaves) && z < FAST_SIZE && i < |leaves|
    requires leaves[i].len <= FAST_LENGTH && Begins(z, leaves[i]) && !b.sparse && leaves[i].symbol < FAST_LIMIT
    ensures |b.fast| == FAST_SIZE && b.fast[z] >= 0
  {
    hide TablesOk, Begins;
    assert FastWanted(b, leaves, z, i, leaves[i].symbol, FAST_LIMIT);
  }

  lemma FastHasSize(b: Book, lens: seq<nat>, leaves: seq<Leaf>)
    requires BookOk(b, lens, leaves)
    ensures |b.fast| == FAST_SIZE
  {
  }

  /** Without a hit, the slow path finds what can be found at all. */
  lemma MissIsSlow(b: Book, lens: seq<nat>, leaves: seq<Leaf>, acc: nat, valid: int, unread: seq<nat>, i: nat)
    requires BookOk(b, lens, leaves) && (valid >= 0 ==> acc < Pow2(valid)) && valid <= 32
    requires valid >= FAST_LENGTH || unread == []
    requires b.fast[Low(acc, FAST_LENGTH)] < 0
    requires i < |leaves| && StartsWith(PendingAt(acc, valid, unread), leaves[i])
    ensures SlowFinds(b, leaves[i]) <==> Reachable(b, leaves[i])
  {
    hide SortOk, Entered, LeavesAre, PendingAt, Pow2, Begins, StartsWith, Apart, Low, FastOk;
    LeafIsOk(leaves, i);
    FastHasSize(b, lens, leaves);
    SymbolIsEntry(b, lens, leaves, i);
    if Reachable(b, leaves[i]) && !SlowFinds(b, leaves[i]) {
      PendingHolds(acc, valid, unread, leaves[i]);
      AccumulatorBegins(acc, valid, unread, leaves[i]);
      ShortBegins(acc, leaves[i]);
      LowIndex(acc);
      WantedIsThere(b, lens, leaves, Low(acc, FAST_LENGTH), i);
    }
  }

  /** A short codeword at the front is in the accumulator. */
  lemma PendingHolds(acc: nat, valid: int, unread: seq<nat>, l: Leaf)
    requires StartsWith(PendingAt(acc, valid, unread), l) && LeafOk(l) && l.len <= FAST_LENGTH
    requires valid >= FAST_LENGTH || unread == []
    ensures l.len <= valid
  {
  }

  lemma SameFinds(b: Book, leaves: seq<Leaf>, i: nat, finds: bool, finds': bool, before: BitString, filled: int,
                  v: int, after: BitString, exact: bool)
    requires Decodes(b, leaves, i, finds, before, filled, v, after, exact)
    requires i < |leaves| && StartsWith(before, leaves[i]) ==> finds == finds'
    ensures Decodes(b, leaves, i, finds', before, filled, v, after, exact)
  {
  }

  /** What is left of the packet's own bits is in front of what is left. */
  lemma DecodesBehind(b: Book, leaves: seq<Leaf>, i: nat, finds: bool, before: BitString, filled: int, v: int,
                      own: BitString, after: BitString, exact: bool)
    requires Decodes(b, leaves, i, finds, before, filled, v, own, true)
    requires i < |leaves| && Denotes(b, leaves[i], v) ==> GoesOn(after, own, exact)
    ensures Decodes(b, leaves, i, finds, before, filled, v, after, exact)
  {
  }

  /** Takes a codeword found in the fast table. */
  method TakeFast(f: Vorb, n: nat, p: int) returns (v: int)
    requires f.Open() && (f.validBits >= 0 ==> f.acc < Pow2(f.validBits))
    modifies f`acc, f`validBits
    ensures f.Open() && f.validBits >= 0
    ensures n <= old(f.validBits) ==> v == p && f.Pending() == old(f.Pending())[n..]
    ensures n > old(f.validBits) ==> v == -1
  {
    hide Pow2, UnreadAt, CursorOk, PendingAt;
    ghost var valid, acc, unread := f.validBits, f.acc, f.Unread();
    if 0 <= n <= valid {
      BitsAreTaken(acc, valid, n, unread);
    }
    v := p;
    f.acc := High(f.acc, n);
    f.validBits := f.validBits - n;
    if f.validBits < 0 {
      f.validBits := 0;
      v := -1;
    }
  }

  /** A hit of the table, as a leaf. */
  lemma HitHasLeaf(b: Book, lens: seq<nat>, leaves: seq<Leaf>, acc: nat) returns (j: nat)
    requires BookOk(b, lens, leaves) && Low(acc, FAST_LENGTH) < FAST_SIZE && b.fast[Low(acc, FAST_LENGTH)] >= 0
    ensures var p := b.fast[Low(acc, FAST_LENGTH)];
      && p < FAST_LIMIT && j < |leaves| && leaves[j].len <= FAST_LENGTH && Begins(acc, leaves[j]) &&
        Denotes(b, leaves[j], p)
      && p < |b.lengths| && b.lengths[p] == leaves[j].len
  {
    hide Low, Begins, Denotes, TablesOk;
    var z := Low(acc, FAST_LENGTH);
    var p := b.fast[z];
    assert FastHit(b, leaves, z, p);
    var k :| 0 <= k < |leaves| && leaves[k].len <= FAST_LENGTH && Begins(z, leaves[k]) && Denotes(b, leaves[k], p);
    ShortBegins(acc, leaves[k]);
    DenotesLength(b, lens, leaves, k, p);
    j := k;
  }

  /** Refilling twice is refilling once. */
  lemma RefilledOnce(valid: int, unread: nat, valid': int, unread': nat)
    requires (valid' == valid && unread' == unread) ||
      (valid' == Refilled(valid, unread) && (valid' > 24 || unread' == 0))
    ensures Refilled(valid', unread') == Refilled(valid, unread) && Refilled(valid, unread) >= valid'
  {
    if valid >= 0 {
      FilledIsEnough(valid, unread);
    }
  }

  /** A codeword in front of the pending bits is in the accumulator after one refill exactly if it is after another. */
  lemma FillsAlike(before: BitString, valid: int, unread: nat, valid': int, unread': nat, len: nat)
    requires |before| == (if valid < 0 then 0 else valid) + 8 * unread && 0 < len <= |before| &&
      (valid < 0 ==> unread == 0)
    requires (valid' == valid && unread' == unread) || valid' == Refilled(valid, unread)
    ensures len <= Refilled(valid, unread) <==> len <= Refilled(valid', unread')
  {
    FilledIsEnough(valid, unread);
    FilledIsEnough(valid', unread');
  }

  /** After a first refill, if there was need for one, the packet's own unread bytes are out of the fast table's
      sight. */
  lemma FirstRefill(before: BitString, valid: int, unread: nat, valid': int, own: seq<nat>)
    requires |before| == (if valid < 0 then 0 else valid) + 8 * unread && (valid < 0 ==> unread == 0)
    requires valid' == valid >= FAST_LENGTH || (valid' == Refilled(valid, unread) && (|before| <= 24 ==> own == []))
    ensures valid' >= FAST_LENGTH || own == []
    ensures valid' <= Refilled(valid, unread)
  {
    if valid >= 0 {
      FilledIsEnough(valid, unread);
    }
  }

  /** A hit, for pending bits that go on with bits of the next packet if not `exact`. */
  lemma HitLeaves(b: Book, lens: seq<nat>, leaves: seq<Leaf>, acc: nat, valid: nat, own: seq<nat>, i: nat, p: int,
                  j: nat,
                  filled: int, v: int, before: BitString, pending: BitString, after: BitString, exact: bool)
    requires BookOk(b, lens, leaves) && acc < Pow2(valid) && valid <= 32 && (valid >= FAST_LENGTH || own == [])
    requires j < |leaves| && leaves[j].len <= FAST_LENGTH && Begins(acc, leaves[j]) && Denotes(b, leaves[j], p) &&
      p < FAST_LIMIT
    requires valid <= filled && PendingAt(acc, valid, own) == before && GoesOn(pending, before, exact)
    requires leaves[j].len <= valid ==> v == p && after == pending[leaves[j].len..]
    requires leaves[j].len > valid ==> v == -1
    ensures Decodes(b, leaves, i, i < |leaves| && Reachable(b, leaves[i]), before, filled, v, after, exact)
  {
    hide BookOk, PendingAt, Pow2, Begins, Denotes, Decodes, Reachable;
    var n := leaves[j].len;
    PendingLength(acc, valid, own);
    var left := if n <= valid then before[n..] else [];
    HitDecodes(b, lens, leaves, acc, valid, own, i, p, j, filled, v, left);
    if n <= valid {
      HitGoesOn(pending, before, n, exact);
    } else if i < |leaves| {
      NothingDenoted(b, leaves[i]);
    }
    DecodesBehind(b, leaves, i, i < |leaves| && Reachable(b, leaves[i]), before, filled, v, left, after, exact);
  }

  /** The slow path, likewise, after a first refill. */
  lemma SlowLeaves(b: Book, lens: seq<nat>, leaves: seq<Leaf>, i: nat, before: BitString, filled: int,
                   pending: BitString, filled': int,
                   v: int, after: BitString, exact: bool, exact': bool)
    requires Decodes(b, leaves, i, i < |leaves| && SlowFinds(b, leaves[i]), pending, filled', v, after, exact')
    requires GoesOn(pending, before, exact) && (exact ==> exact')
    requires i < |leaves| && StartsWith(before, leaves[i]) ==>
      (SlowFinds(b, leaves[i]) <==> Reachable(b, leaves[i])) && (leaves[i].len <= filled <==> leaves[i].len <= filled')
    ensures Decodes(b, leaves, i, i < |leaves| && Reachable(b, leaves[i]), before, filled, v, after, exact)
  {
    hide Decodes, SlowFinds, Reachable, GoesOn, StartsWith;
    var finds := i < |leaves| && SlowFinds(b, leaves[i]);
    DecodesFront(b, leaves, i, finds, before, filled, pending, filled', v, after, exact, exact');
    SameFinds(b, leaves, i, finds, i < |leaves| && Reachable(b, leaves[i]), before, filled, v, after, exact);
  }

  lemma HitGoesOn(pending: BitString, before: BitString, n: nat, exact: bool)
    requires GoesOn(pending, before, exact) && n <= |before|
    ensures n <= |pending| && GoesOn(pending[n..], before[n..], exact)
  {
  }

  /** Decodes one codeword: by the table if it is short, and on the slow path if it is not. When the pending bits start
      with the codeword of leaf `i`, this gives the place of leaf `i` exactly if the leaf is reachable and the
      accumulator, once refilled, holds the codeword, whatever the pages. */
  method DecodeRaw(f: Vorb, c: Codebook, ghost lens: seq<nat>, ghost leaves: seq<Leaf>, ghost i: nat) returns (v: int)
    requires f.Refillable() && BookOk(c.View(), lens, leaves)
    modifies f
    ensures f.Refillable() && (v == -1 || 0 <= v < |c.codewordLengths|)
    ensures Decodes(c.View(), leaves, i, i < |leaves| && Reachable(c.View(), leaves[i]), old(f.Pending()),
                    Refilled(old(f.validBits), |old(f.Unread())|), v, f.Pending(), old(StaysOwn(f)))
    ensures old(f.HasEnd()) ==> f.HasEnd()
  {
    hide TablesOk, FastOk, Pow2, PendingAt, UnreadAt, CursorOk, EndsAt, Decodes, Filled, Begins, Low, StartsWith,
      SlowFinds,
         Reachable, Denotes;
    ghost var b, before, exact, own := c.View(), f.Pending(), StaysOwn(f), f.Unread();
    ghost var filled, valid0, unread0 := Refilled(f.validBits, |f.Unread()|), f.validBits, |f.Unread()|;
    PendingLength(f.acc, valid0, f.Unread());
    if f.validBits < FAST_LENGTH {
      ghost var _ := f.PrepHuffman();
      own := Own(before, f.Unread());
    }
    ghost var acc, valid, pending, filled' := f.acc, f.validBits, f.Pending(), Refilled(f.validBits, |f.Unread()|);
    FirstRefill(before, valid0, unread0, valid, own);
    if i < |leaves| && StartsWith(before, leaves[i]) {
      StartFits(lens, leaves, b, i, before);
      FillsAlike(before, valid0, unread0, valid, |f.Unread()|, leaves[i].len);
    }
    LowIndex(f.acc);
    FastHasSize(b, lens, leaves);
    ghost var exact' := StaysOwn(f);
    v := c.fastHuffman[Low(f.acc, FAST_LENGTH)];
    if v >= 0 {
      ghost var j := HitHasLeaf(b, lens, leaves, acc);
      var n, p := c.codewordLengths[v], v;
      v := TakeFast(f, n, p);
      if valid >= 0 {
        HitLeaves(b, lens, leaves, acc, valid, own, i, p, j, filled, v, before, pending, f.Pending(), exact);
      }
    } else {
      v := CodebookDecodeScalarRaw(f, c, lens, leaves, i);
      if i < |leaves| && StartsWith(before, leaves[i]) {
        MissIsSlow(b, lens, leaves, acc, valid, own, i);
      }
      SlowLeaves(b, lens, leaves, i, before, filled, pending, filled', v, f.Pending(), exact, exact');
    }
    if valid < 0 {
      NoBitsDecode(b, lens, leaves, i, i < |leaves| && Reachable(b, leaves[i]), acc, valid, own, v, f.Pending(), exact);
    }
  }

  lemma StartFits(lens: seq<nat>, leaves: seq<Leaf>, b: Book, i: nat, bits: BitString)
    requires BookOk(b, lens, leaves) && i < |leaves| && StartsWith(bits, leaves[i])
    ensures 0 < leaves[i].len <= |bits|
  {
    LeafIsOk(leaves, i);
  }

  // ---------------------------------------------------------------- Symbols

  /** The outcome of decoding one symbol. */
  ghost predicate Yields(leaves: seq<Leaf>, i: nat, finds: bool, before: BitString, filled: int, symbol: int,
                         after: BitString,
                         exact: bool)
  {
    i < |leaves| && StartsWith(before, leaves[i]) ==>
      && (symbol == leaves[i].symbol <==> finds && leaves[i].len <= filled)
      && (symbol == leaves[i].symbol ==> GoesOn(after, before[leaves[i].len..], exact))
  }

  /** The symbol in a place of a book. */
  lemma PlaceYields(b: Book, lens: seq<nat>, leaves: seq<Leaf>, i: nat, finds: bool, before: BitString, filled: int,
                    v: int,
                    after: BitString, exact: bool)
    requires TablesOk(b, lens, leaves) && Decodes(b, leaves, i, finds, before, filled, v, after, exact)
    requires v == -1 || 0 <= v < |b.lengths|
    ensures b.sparse && v >= 0 ==> v < |b.sortedValues|
    ensures Yields(leaves, i, finds, before, filled, if b.sparse && v >= 0 then b.sortedValues[v] else v, after, exact)
  {
    hide SortedIs, Entered, Apart, StartsWith, LeavesAre, GoesOn;
    if i < |leaves| {
      NothingDenoted(b, leaves[i]);
      if b.sparse && v >= 0 {
        var j := SortedLeaf(b, lens, leaves, v);
        DenotesLength(b, lens, leaves, j, v);
        SymbolsDiffer(lens, leaves, i, j);
        if Denotes(b, leaves[i], v) {
          DenotesLength(b, lens, leaves, i, v);
        }
      }
    }
  }

  lemma SymbolsDiffer(lens: seq<nat>, leaves: seq<Leaf>, i: nat, j: nat)
    requires LeavesAre(lens, |lens|, leaves) && i < |leaves| && j < |leaves|
    ensures leaves[i].symbol == leaves[j].symbol ==> i == j
  {
    assert IsEntry(lens, |lens|, leaves[i], i) && IsEntry(lens, |lens|, leaves[j], j);
  }

  /** Decodes one symbol; -1 at the end of the packet. */
  method Decode(f: Vorb, c: Codebook, ghost lens: seq<nat>, ghost leaves: seq<Leaf>, ghost i: nat) returns (symbol: int)
    requires f.Refillable() && BookOk(c.View(), lens, leaves)
    modifies f
    ensures f.Refillable() && (old(f.HasEnd()) ==> f.HasEnd())
    ensures Yields(leaves, i, i < |leaves| && Reachable(c.View(), leaves[i]), old(f.Pending()),
                   Refilled(old(f.validBits), |old(f.Unread())|), symbol, f.Pending(), old(StaysOwn(f)))
  {
    hide TablesOk, FastOk, Pow2, PendingAt, UnreadAt, CursorOk, EndsAt, Decodes, Yields, Filled, Reachable, StartsWith;
    ghost var before, filled, exact := f.Pending(), Refilled(f.validBits, |f.Unread()|), StaysOwn(f);
    symbol := DecodeRaw(f, c, lens, leaves, i);
    PlaceYields(c.View(), lens, leaves, i, i < |leaves| && Reachable(c.View(), leaves[i]), before, filled, symbol,
      f.Pending(), exact);
    if c.sparse && symbol >= 0 {
      symbol := c.sortedValues[symbol];
    }
  }

  /** A codeword of at most 25 bits always fits the accumulator. */
  lemma ShortEnough(acc: nat, valid: int, unread: seq<nat>, l: Leaf)
    requires LeafOk(l) && l.len <= 25 && StartsWith(PendingAt(acc, valid, unread), l)
    requires valid < 0 ==> unread == []
    ensures l.len <= Refilled(valid, |unread|)
  {
    if valid >= 0 {
      FilledIsEnough(valid, |unread|);
      PendingLength(acc, valid, unread);
    }
  }

  /** Every entry can be found in a sparse book, or in one of at most 32767 entries. */
  lemma AllReachable(b: Book, lens: seq<nat>, leaves: seq<Leaf>, i: nat)
    requires TablesOk(b, lens, leaves) && (b.sparse || b.entries <= FAST_LIMIT) && i < |leaves|
    ensures Reachable(b, leaves[i])
  {
    hide TablesOk;
    SymbolIsEntry(b, lens, leaves, i);
  }

  /** The codewords of a list of symbols, one after the other. */
  function Encode(lens: seq<nat>, leaves: seq<Leaf>, symbols: seq<nat>): BitString {
    if symbols == [] then [] else CodewordOf(lens, leaves, symbols[0]) + Encode(lens, leaves, symbols[1..])
  }

  function CodewordOf(lens: seq<nat>, leaves: seq<Leaf>, symbol: nat): BitString {
    if symbol < |lens| && Coded(lens, symbol) < |leaves| then CodeBits(leaves[Coded(lens, symbol)]) else []
  }

  ghost predicate CanEncode(lens: seq<nat>, leaves: seq<Leaf>, symbols: seq<nat>) {
    forall s <- symbols :: s < |lens| && lens[s] != NO_CODE && lens[s] <= 25 && Coded(lens, s) < |leaves|
  }

  lemma EncodeStarts(lens: seq<nat>, leaves: seq<Leaf>, symbols: seq<nat>, rest: BitString)
    requires CanEncode(lens, leaves, symbols) && symbols != []
    ensures CanEncode(lens, leaves, symbols[1..])
    ensures symbols[0] < |lens| && lens[symbols[0]] != NO_CODE && lens[symbols[0]] <= 25 &&
      Coded(lens, symbols[0]) < |leaves|
    ensures var l, bits := leaves[Coded(lens, symbols[0])], Encode(lens, leaves, symbols) + rest;
      StartsWith(bits, l) && bits[l.len..] == Encode(lens, leaves, symbols[1..]) + rest
  {
    hide BitsOf, Rev, Coded;
    assert symbols[0] in symbols;
    forall s | s in symbols[1..]
      ensures s in symbols
    {
      InTail(symbols, s);
    }
    var l := leaves[Coded(lens, symbols[0])];
    var code, tail := CodeBits(l), Encode(lens, leaves, symbols[1..]);
    CutFront(code, tail, rest);
  }

  lemma CutFront(code: BitString, tail: BitString, rest: BitString)
    ensures ((code + tail) + rest)[..|code|] == code && ((code + tail) + rest)[|code|..] == tail + rest
  {
  }

  /** Decoding the codewords of a list of symbols gives the list back, whatever the pages, and leaves the bits after it;
      if these are at most 24 and the packet has no end, bits of the next packet may stand behind them then. */
  method DecodeAll(f: Vorb, c: Codebook, n: nat, ghost lens: seq<nat>, ghost leaves: seq<Leaf>, ghost symbols: seq<nat>,
                   ghost rest: BitString)
    returns (out: seq<int>)
    requires f.Refillable() && BookOk(c.View(), lens, leaves) && (c.sparse || c.entries <= FAST_LIMIT)
    requires CanEncode(lens, leaves, symbols) && |symbols| == n
    requires f.Pending() == Encode(lens, leaves, symbols) + rest
    modifies f
    ensures f.Refillable() && GoesOn(f.Pending(), rest, |rest| > 24 || old(f.HasEnd()))
    ensures |out| == n && forall k | 0 <= k < n :: out[k] == symbols[k]
  {
    hide TablesOk, FastOk, Pow2, PendingAt, UnreadAt, CursorOk, EndsAt, CodeBits, StartsWith, Reachable, Refilled,
      Encode, Coded;
    out := [];
    assert symbols[0..] == symbols;
    ghost var b, exact, tail := c.View(), |rest| > 24 || f.HasEnd(), rest;
    for k := 0 to n
      invariant f.Refillable() && CanEncode(lens, leaves, symbols[k..]) && (old(f.HasEnd()) ==> f.HasEnd())
      invariant f.Pending() == Encode(lens, leaves, symbols[k..]) + tail && GoesOn(tail, rest, exact)
      invariant |out| == k && forall m | 0 <= m < k :: out[m] == symbols[m]
    {
      EncodeStarts(lens, leaves, symbols[k..], tail);
      assert symbols[k..][1..] == symbols[k + 1..] && symbols[k..][0] == symbols[k];
      ghost var i := SymbolLeaf(b, lens, leaves, symbols[k], f);
      var symbol := Decode(f, c, lens, leaves, i);
      out := out + [symbol];
      tail := TailGoesOn(f.Pending(), Encode(lens, leaves, symbols[k + 1..]), tail, rest, exact);
    }
    NothingEncoded(lens, leaves, symbols[n..], tail);
  }

  /** What stands behind the codewords still to be decoded. */
  lemma TailGoesOn(pending: BitString, codes: BitString, tail: BitString, rest: BitString, exact: bool)
    returns (tail': BitString)
    requires GoesOn(pending, codes + tail, exact) && GoesOn(tail, rest, exact)
    ensures pending == codes + tail' && GoesOn(tail', rest, exact)
  {
    tail' := pending[|codes|..];
    assert pending[..|codes + tail|] == codes + tail;
    assert pending[..|codes|] == (codes + tail)[..|codes|] == codes;
    assert forall k | 0 <= k < |tail| :: tail'[k] == pending[|codes| + k] == (codes + tail)[|codes| + k] == tail[k];
  }

  lemma NothingEncoded(lens: seq<nat>, leaves: seq<Leaf>, symbols: seq<nat>, rest: BitString)
    requires symbols == []
    ensures Encode(lens, leaves, symbols) + rest == rest
  {
  }

  /** The leaf of a symbol at the front of the pending bits can be found and fits. */
  lemma SymbolLeaf(b: Book, lens: seq<nat>, leaves: seq<Leaf>, symbol: nat, f: Vorb) returns (i: nat)
    requires f.Refillable() && BookOk(b, lens, leaves) && (b.sparse || b.entries <= FAST_LIMIT)
    requires symbol < |lens| && lens[symbol] != NO_CODE && lens[symbol] <= 25 && Coded(lens, symbol) < |leaves|
    requires StartsWith(f.Pending(), leaves[Coded(lens, symbol)])
    ensures i == Coded(lens, symbol) && leaves[i].symbol == symbol
    ensures Reachable(b, leaves[i]) && leaves[i].len <= Refilled(f.validBits, |f.Unread()|)
  {
    hide SortOk, FastOk, Entered, Pow2, PendingAt, StartsWith;
    i := Coded(lens, symbol);
    EntryIsLeaf(lens, leaves, symbol);
    LeafIsOk(leaves, i);
    AllReachable(b, lens, leaves, i);
    if f.validBits < 0 {
      assert f.Unread() == [];
    }
    ShortEnough(f.acc, f.validBits, f.Unread(), leaves[i]);
  }
}
