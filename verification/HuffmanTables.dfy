/** What the lookup tables of a codebook hold, and the lemmas that build them step by step. */
module HuffmanTables {
  import opened Bits
  import opened HuffmanTree
  import opened HuffmanCodes

  const FAST_LENGTH: nat := 10
  const FAST_SIZE: nat := 1024
  /** The largest index that the fast table can hold. */
  const FAST_LIMIT: nat := 32767

  // ---------------------------------------------------------------- The codeword table

  /** Leaf `i` is in the tables: under its symbol, or in a sparse book in place `i`. */
  predicate EnteredAt(sparse: bool, codewords: seq<nat>, lengths: seq<nat>, values: seq<nat>, l: Leaf, i: nat) {
    if sparse then
      && i < |codewords| && i < |lengths| && i < |values|
      && codewords[i] == Rev(l.addr, 32) && lengths[i] == l.len && values[i] == l.symbol
    else l.symbol < |codewords| && codewords[l.symbol] == Rev(l.addr, 32)
  }

  ghost predicate Entered(sparse: bool, codewords: seq<nat>, lengths: seq<nat>, values: seq<nat>, leaves: seq<Leaf>) {
    forall i | 0 <= i < |leaves| :: EnteredAt(sparse, codewords, lengths, values, leaves[i], i)
  }

  /** The fields of a codebook. */
  datatype Book = Book(entries: nat, sparse: bool, sortedEntries: nat, codewords: seq<nat>, lengths: seq<nat>,
                       sortedCodewords: seq<nat>, sortedValues: seq<nat>, fast: seq<int>)

  /** There is room for the entry that comes after the given leaves. */
  ghost predicate Room(sparse: bool, codewords: seq<nat>, lengths: seq<nat>, values: seq<nat>, leaves: seq<Leaf>,
                       symbol: nat) {
    if sparse then |leaves| < |codewords| && |leaves| < |lengths| && |leaves| < |values|
    else symbol < |codewords| && forall i | 0 <= i < |leaves| :: leaves[i].symbol != symbol
  }

  lemma EntryIsEntered(sparse: bool, codewords: seq<nat>, lengths: seq<nat>, values: seq<nat>, leaves: seq<Leaf>,
                       l: Leaf)
    requires Entered(sparse, codewords, lengths, values, leaves) &&
      Room(sparse, codewords, lengths, values, leaves, l.symbol)
    ensures sparse ==> Entered(sparse, codewords[|leaves| := Rev(l.addr, 32)], lengths[|leaves| := l.len],
                               values[|leaves| := l.symbol], leaves + [l])
    ensures !sparse ==> Entered(sparse, codewords[l.symbol := Rev(l.addr, 32)], lengths, values, leaves + [l])
  {
    forall i | 0 <= i < |leaves|
      ensures EnteredAt(sparse, codewords, lengths, values, (leaves + [l])[i], i)
    {
      assert EnteredAt(sparse, codewords, lengths, values, leaves[i], i);
    }
  }

  ghost predicate TablesFit(sparse: bool, codewords: seq<nat>, lengths: seq<nat>, values: seq<nat>, lens: seq<nat>) {
    if sparse then |codewords| == |lengths| == |values| == Coded(lens, |lens|)
    else |codewords| == |lens| && lengths == lens
  }

  lemma NothingEntered(sparse: bool, codewords: seq<nat>, lengths: seq<nat>, values: seq<nat>)
    ensures Entered(sparse, codewords, lengths, values, [])
  {
  }

  lemma StillFits(sparse: bool, codewords: seq<nat>, lengths: seq<nat>, values: seq<nat>,
                  codewords': seq<nat>, lengths': seq<nat>, values': seq<nat>, lens: seq<nat>)
    requires TablesFit(sparse, codewords, lengths, values, lens)
    requires |codewords'| == |codewords| && |lengths'| == |lengths| && |values'| == |values|
    requires !sparse ==> lengths' == lengths
    ensures TablesFit(sparse, codewords', lengths', values', lens)
  {
  }

  /** The entries whose codewords the tables hold, and the leaves that they are. */
  ghost predicate Tabled(sparse: bool, codewords: seq<nat>, lengths: seq<nat>, values: seq<nat>, lens: seq<nat>,
                         leaves: seq<Leaf>) {
    && Entered(sparse, codewords, lengths, values, leaves)
    && TablesFit(sparse, codewords, lengths, values, lens)
    && LeavesAre(lens, |lens|, leaves) && Apart(leaves)
  }

  /** How many leaves come before entry `i` of the tables. */
  function LeavesBefore(sparse: bool, lens: seq<nat>, i: nat): nat
    requires sparse || i <= |lens|
  {
    if sparse then i else Coded(lens, i)
  }

  /** How many entries the tables have. */
  function TableEntries(sparse: bool, lens: seq<nat>): nat {
    if sparse then Coded(lens, |lens|) else |lens|
  }

  function LengthOf(sparse: bool, values: seq<nat>, lens: seq<nat>, i: nat): nat
    requires if sparse then i < |values| && values[i] < |lens| else i < |lens|
  {
    if sparse then lens[values[i]] else lens[i]
  }

  /** Entry `i` of the tables: its leaf, if it has one, and its codeword. */
  lemma EntryHasLeaf(sparse: bool, codewords: seq<nat>, lengths: seq<nat>, values: seq<nat>, lens: seq<nat>,
                     leaves: seq<Leaf>, i: nat)
    requires Tabled(sparse, codewords, lengths, values, lens, leaves) && i < TableEntries(sparse, lens)
    ensures i < |codewords| && (sparse ==> i < |values| && values[i] < |lens|)
    ensures var j, len := LeavesBefore(sparse, lens, i), LengthOf(sparse, values, lens, i);
      && (len == NO_CODE ==> LeavesBefore(sparse, lens, i + 1) == j)
      && (len != NO_CODE ==>
            && LeavesBefore(sparse, lens, i + 1) == j + 1 && j < |leaves| && leaves[j].len == len
            && leaves[j].symbol == (if sparse then values[i] else i) && Rev(codewords[i], 32) == leaves[j].addr)
  {
    if sparse {
      assert EnteredAt(sparse, codewords, lengths, values, leaves[i], i);
      assert IsEntry(lens, |lens|, leaves[i], i);
      CodewordAddr(leaves, i);
    } else if lens[i] != NO_CODE {
      assert HasLeaf(lens, leaves, i);
      var j := Coded(lens, i);
      assert IsEntry(lens, |lens|, leaves[j], j);
      assert EnteredAt(sparse, codewords, lengths, values, leaves[j], j);
      CodewordAddr(leaves, j);
    }
  }

  lemma CodewordAddr(leaves: seq<Leaf>, j: nat)
    requires Apart(leaves) && j < |leaves|
    ensures Rev(Rev(leaves[j].addr, 32), 32) == leaves[j].addr < WORD
  {
    assert LeafOk(leaves[j]);
    RevInvolution(leaves[j].addr, 32);
  }

  lemma AllLeavesBefore(sparse: bool, lens: seq<nat>, leaves: seq<Leaf>)
    requires LeavesAre(lens, |lens|, leaves)
    ensures LeavesBefore(sparse, lens, TableEntries(sparse, lens)) == |leaves| && leaves[..|leaves|] == leaves
  {
  }

  // ---------------------------------------------------------------- The sorted table

  /** No two blocks meet. */
  ghost predicate Apart(leaves: seq<Leaf>) {
    && (forall i | 0 <= i < |leaves| :: LeafOk(leaves[i]))
    && (forall i, j, x | 0 <= i < |leaves| && 0 <= j < |leaves| && InLeaf(leaves[i], x) && InLeaf(leaves[j], x) ::
      i == j)
  }

  lemma TiledIsApart(t: Tree)
    requires Tiled(t)
    ensures Apart(t.leaves)
  {
  }

  /** Short codewords are left to the fast table, unless the book is sparse. */
  predicate IncludeInSort(sparse: bool, len: nat) {
    len != NO_CODE && (sparse || len > FAST_LENGTH)
  }

  function SortAddrs(sparse: bool, leaves: seq<Leaf>): seq<nat> {
    if leaves == [] then []
    else
      var last := leaves[|leaves| - 1];
      SortAddrs(sparse, leaves[..|leaves| - 1]) + if IncludeInSort(sparse, last.len) then [last.addr] else []
  }

  lemma SortAddrsNext(sparse: bool, leaves: seq<Leaf>, j: nat)
    requires j < |leaves|
    ensures SortAddrs(sparse, leaves[..j + 1])
         == SortAddrs(sparse, leaves[..j]) + if IncludeInSort(sparse, leaves[j].len) then [leaves[j].addr] else []
  {
    assert leaves[..j + 1][..j] == leaves[..j];
  }

  lemma {:induction false} SortAddrsHas(sparse: bool, leaves: seq<Leaf>, i: nat)
    requires i < |leaves| && IncludeInSort(sparse, leaves[i].len)
    ensures leaves[i].addr in SortAddrs(sparse, leaves)
  {
    if i < |leaves| - 1 {
      SortAddrsHas(sparse, leaves[..|leaves| - 1], i);
    }
  }

  lemma {:induction false} SortAddrsOnly(sparse: bool, leaves: seq<Leaf>, a: nat) returns (i: nat)
    requires a in SortAddrs(sparse, leaves)
    ensures i < |leaves| && IncludeInSort(sparse, leaves[i].len) && leaves[i].addr == a
  {
    if a in SortAddrs(sparse, leaves[..|leaves| - 1]) {
      i := SortAddrsOnly(sparse, leaves[..|leaves| - 1], a);
    } else {
      i := |leaves| - 1;
    }
  }

  /** How many of the first `k` entries are to be sorted. */
  function CountToSort(sparse: bool, lens: seq<nat>, k: nat): nat
    requires k <= |lens|
  {
    if k == 0 then 0 else CountToSort(sparse, lens, k - 1) + if IncludeInSort(sparse, lens[k - 1]) then 1 else 0
  }

  lemma {:induction false} CountIsSortAddrs(sparse: bool, lens: seq<nat>, leaves: seq<Leaf>, k: nat)
    requires k <= |lens| && LeavesAre(lens, |lens|, leaves)
    ensures Coded(lens, k) <= |leaves| && |SortAddrs(sparse, leaves[..Coded(lens, k)])| == CountToSort(sparse, lens, k)
  {
    hide LeavesAre, SortAddrs;
    if k > 0 {
      CountIsSortAddrs(sparse, lens, leaves, k - 1);
      if lens[k - 1] != NO_CODE {
        EntryIsLeaf(lens, leaves, k - 1);
        SortAddrsNext(sparse, leaves, Coded(lens, k - 1));
      }
    } else {
      NoSortAddrs(sparse, leaves);
    }
  }

  lemma NoSortAddrs(sparse: bool, leaves: seq<Leaf>)
    ensures SortAddrs(sparse, leaves[..0]) == []
  {
  }

  lemma EntryIsLeaf(lens: seq<nat>, leaves: seq<Leaf>, s: nat)
    requires LeavesAre(lens, |lens|, leaves) && s < |lens| && lens[s] != NO_CODE
    ensures Coded(lens, s) < |leaves| && leaves[Coded(lens, s)].symbol == s && leaves[Coded(lens, s)].len == lens[s]
  {
    assert HasLeaf(lens, leaves, s);
    LeafLength(lens, leaves, Coded(lens, s));
  }

  lemma LeafLength(lens: seq<nat>, leaves: seq<Leaf>, j: nat)
    requires LeavesAre(lens, |lens|, leaves) && j < |leaves|
    ensures leaves[j].symbol < |lens| && leaves[j].len == lens[leaves[j].symbol] != NO_CODE
  {
    assert IsEntry(lens, |lens|, leaves[j], j);
  }

  predicate Distinct(s: seq<nat>) {
    forall i, j | 0 <= i < j < |s| :: s[i] != s[j]
  }

  predicate Ascending(s: seq<nat>) {
    forall i, j | 0 <= i < j < |s| :: s[i] < s[j]
  }

  lemma InOwnLeaf(leaves: seq<Leaf>, j: nat)
    requires Apart(leaves) && j < |leaves|
    ensures InLeaf(leaves[j], leaves[j].addr)
  {
    assert LeafOk(leaves[j]);
  }

  lemma SameAddr(leaves: seq<Leaf>, i: nat, j: nat)
    requires Apart(leaves) && i < |leaves| && j < |leaves| && leaves[i].addr == leaves[j].addr
    ensures i == j
  {
    assert LeafOk(leaves[i]) && LeafOk(leaves[j]);
    assert InLeaf(leaves[i], leaves[i].addr) && InLeaf(leaves[j], leaves[i].addr);
  }

  lemma {:induction false} SortAddrsDistinct(sparse: bool, leaves: seq<Leaf>, n: nat)
    requires Apart(leaves) && n <= |leaves|
    ensures Distinct(SortAddrs(sparse, leaves[..n]))
  {
    hide Apart;
    if n > 0 {
      SortAddrsDistinct(sparse, leaves, n - 1);
      SortAddrsNext(sparse, leaves, n - 1);
      var a := leaves[n - 1].addr;
      if a in SortAddrs(sparse, leaves[..n - 1]) {
        var i := SortAddrsOnly(sparse, leaves[..n - 1], a);
        SameAddr(leaves, i, n - 1);
      }
    }
  }

  lemma {:induction false} AllAreSorted(leaves: seq<Leaf>)
    requires forall i | 0 <= i < |leaves| :: leaves[i].len != NO_CODE
    ensures |SortAddrs(true, leaves)| == |leaves|
  {
    if leaves != [] {
      AllAreSorted(leaves[..|leaves| - 1]);
    }
  }

  /** The first `n` sorted codewords are the addresses to be sorted. */
  ghost predicate SortedIs(sparse: bool, leaves: seq<Leaf>, sorted: seq<nat>, n: nat) {
    && n <= |sorted| && Ascending(sorted[..n])
    && n == |SortAddrs(sparse, leaves)|
    && (forall a :: a in sorted[..n] <==> a in SortAddrs(sparse, leaves))
  }

  /** What the tables beside the sorted codewords say of a leaf at place `x`. */
  predicate ValueAt(sparse: bool, l: Leaf, x: nat, values: seq<nat>, lengths: seq<nat>) {
    x < |values| && values[x] == l.symbol && (sparse ==> x < |lengths| && lengths[x] == l.len)
  }

  ghost predicate ValuesAre(sparse: bool, leaves: seq<Leaf>, sorted: seq<nat>, n: nat, values: seq<nat>,
                            lengths: seq<nat>)
    requires n <= |sorted|
  {
    forall i, x | 0 <= i < |leaves| && 0 <= x < n && IncludeInSort(sparse, leaves[i].len) &&
      sorted[x] == leaves[i].addr ::
      ValueAt(sparse, leaves[i], x, values, lengths)
  }

  /** Another leaf has been given its place. */
  lemma ValueIsSet(sparse: bool, leaves: seq<Leaf>, j: nat, sorted: seq<nat>, n: nat, x: nat, values: seq<nat>,
                   lengths: seq<nat>)
    requires Apart(leaves) && j < |leaves| && SortedIs(sparse, leaves, sorted, n) && x < n &&
      sorted[x] == leaves[j].addr
    requires ValuesAre(sparse, leaves[..j], sorted, n, values, lengths) && |values| == n && (sparse ==> |lengths| == n)
    ensures ValuesAre(sparse, leaves[..j + 1], sorted, n, values[x := leaves[j].symbol],
                      if sparse then lengths[x := leaves[j].len] else lengths)
  {
    hide Apart;
    var values' := values[x := leaves[j].symbol];
    var lengths' := if sparse then lengths[x := leaves[j].len] else lengths;
    forall i, y | 0 <= i < j + 1 && 0 <= y < n && IncludeInSort(sparse, leaves[i].len) && sorted[y] == leaves[i].addr
      ensures ValueAt(sparse, leaves[i], y, values', lengths')
    {
      AscendingPlaces(sorted[..n], x, y);
      if y == x {
        SameAddr(leaves, i, j);
      } else {
        assert leaves[..j][i] == leaves[i] && ValueAt(sparse, leaves[i], y, values, lengths);
      }
    }
  }

  lemma ValueIsSkipped(sparse: bool, leaves: seq<Leaf>, j: nat, sorted: seq<nat>, n: nat, values: seq<nat>,
                       lengths: seq<nat>)
    requires j < |leaves| && n <= |sorted| && !IncludeInSort(sparse, leaves[j].len)
    requires ValuesAre(sparse, leaves[..j], sorted, n, values, lengths)
    ensures ValuesAre(sparse, leaves[..j + 1], sorted, n, values, lengths)
  {
    forall i, y | 0 <= i < j + 1 && 0 <= y < n && IncludeInSort(sparse, leaves[i].len) && sorted[y] == leaves[i].addr
      ensures ValueAt(sparse, leaves[i], y, values, lengths)
    {
      assert leaves[..j][i] == leaves[i];
    }
  }

  // ---------------------------------------------------------------- Binary search

  /** `j` is the last place whose codeword is at most `code`. */
  predicate LastAtMost(sorted: seq<nat>, n: nat, code: nat, j: nat)
    requires n <= |sorted|
  {
    j < n && sorted[j] <= code && (j + 1 < n ==> code < sorted[j + 1])
  }

  method SearchSorted(sorted: seq<nat>, count: nat, code: nat) returns (x: nat)
    requires count <= |sorted| && Ascending(sorted[..count])
    ensures x < count || x == count == 0
    ensures forall j: nat | j < count && LastAtMost(sorted, count, code, j) :: x == j
  {
    var n := count;
    x := 0;
    while n > 1
      invariant x + n <= count && (n > 0 || count == 0)
      invariant x == 0 || sorted[x] <= code
      invariant x + n == count || code < sorted[x + n]
    {
      var m := x + n / 2;
      if sorted[m] <= code {
        x := m;
        n := n - n / 2;
      } else {
        n := n / 2;
      }
    }
    forall j: nat | j < count && LastAtMost(sorted, count, code, j)
      ensures x == j
    {
      OnlyLast(sorted, count, code, x, j);
    }
  }

  lemma AscendingPlaces(s: seq<nat>, i: nat, j: nat)
    requires Ascending(s) && i < |s| && j < |s|
    ensures s[i] < s[j] ==> i < j
    ensures s[i] == s[j] ==> i == j
  {
  }

  lemma OnlyLast(sorted: seq<nat>, n: nat, code: nat, x: nat, j: nat)
    requires n <= |sorted| && Ascending(sorted[..n]) && LastAtMost(sorted, n, code, j)
    requires x < n && (x == 0 || sorted[x] <= code) && (x + 1 == n || code < sorted[x + 1])
    ensures x == j
  {
    var s := sorted[..n];
    if x + 1 < n {
      AscendingPlaces(s, j, x + 1);
    }
    if j + 1 < n {
      AscendingPlaces(s, x, j + 1);
    }
  }

  /** Looking up an address inside a sorted block finds the block. */
  lemma BlockIsLast(sparse: bool, leaves: seq<Leaf>, sorted: seq<nat>, n: nat, i: nat, j: nat, code: nat)
    requires Apart(leaves) && SortedIs(sparse, leaves, sorted, n) && i < |leaves| && InLeaf(leaves[i], code)
    requires j < n && sorted[j] == leaves[i].addr
    ensures LastAtMost(sorted, n, code, j)
  {
    if j + 1 < n && sorted[j + 1] <= code {
      var s := sorted[..n];
      assert s[j] < s[j + 1] && s[j + 1] in s;
      var k := SortAddrsOnly(sparse, leaves, s[j + 1]);
      assert LeafOk(leaves[k]) && InLeaf(leaves[k], s[j + 1]) && InLeaf(leaves[i], s[j + 1]);
    }
  }

  /** Where the address of a leaf is found. */
  lemma PlaceOfLeaf(sparse: bool, leaves: seq<Leaf>, sorted: seq<nat>, n: nat, i: nat) returns (x: nat)
    requires Apart(leaves) && SortedIs(sparse, leaves, sorted, n) && i < |leaves| &&
      IncludeInSort(sparse, leaves[i].len)
    ensures x < n && sorted[x] == leaves[i].addr
    ensures forall code | InLeaf(leaves[i], code) :: LastAtMost(sorted, n, code, x)
  {
    SortAddrsHas(sparse, leaves, i);
    assert leaves[i].addr in sorted[..n];
    x :| 0 <= x < n && sorted[..n][x] == leaves[i].addr;
    forall code | InLeaf(leaves[i], code)
      ensures LastAtMost(sorted, n, code, x)
    {
      BlockIsLast(sparse, leaves, sorted, n, i, x, code);
    }
  }

  /** The sorted codewords hold all leaves that are to be found by search, each with its values. */
  ghost predicate SortOk(sparse: bool, leaves: seq<Leaf>, sorted: seq<nat>, n: nat, values: seq<nat>,
                         lengths: seq<nat>) {
    && SortedIs(sparse, leaves, sorted, n) && |values| == n && (sparse ==> |lengths| == n)
    && ValuesAre(sparse, leaves, sorted, n, values, lengths)
  }

  lemma NothingValued(sparse: bool, lens: seq<nat>, leaves: seq<Leaf>, sorted: seq<nat>, n: nat, values: seq<nat>,
                      lengths: seq<nat>)
    requires n <= |sorted|
    ensures LeavesBefore(sparse, lens, 0) == 0 && ValuesAre(sparse, leaves[..0], sorted, n, values, lengths)
  {
  }

  // ---------------------------------------------------------------- Sorting

  /** Stands for the library's sort. */
  method SortCodewords(a: seq<nat>) returns (b: seq<nat>)
    requires Distinct(a)
    ensures Ascending(b) && |b| == |a| && forall x :: x in b <==> x in a
  {
    b := [];
    for i := 0 to |a|
      invariant Ascending(b) && |b| == i && forall x :: x in b <==> x in a[..i]
    {
      var p := 0;
      while p < |b| && b[p] < a[i]
        invariant p <= |b| && forall q | 0 <= q < p :: b[q] < a[i]
      {
        p := p + 1;
      }
      InsertAscending(a, i, b, p);
      b := b[..p] + [a[i]] + b[p..];
    }
    assert a[..|a|] == a;
  }

  lemma InsertAscending(a: seq<nat>, i: nat, b: seq<nat>, p: nat)
    requires Distinct(a) && i < |a| && Ascending(b) && (forall x :: x in b <==> x in a[..i])
    requires p <= |b| && (forall q | 0 <= q < p :: b[q] < a[i]) && (p < |b| ==> b[p] >= a[i])
    ensures var c := b[..p] + [a[i]] + b[p..];
      Ascending(c) && |c| == |b| + 1 && forall x :: x in c <==> x in a[..i + 1]
  {
    assert a[i] !in a[..i];
    if p < |b| {
      assert b[p] in b;
    }
    InsertMembers(b, p, a[i]);
    assert a[..i + 1] == a[..i] + [a[i]];
    InsertOrder(b, p, a[i]);
  }

  lemma InsertMembers(b: seq<nat>, p: nat, v: nat)
    requires p <= |b|
    ensures forall x :: x in b[..p] + [v] + b[p..] <==> x in b || x == v
  {
    assert b == b[..p] + b[p..];
  }

  lemma InsertOrder(b: seq<nat>, p: nat, v: nat)
    requires Ascending(b) && p <= |b| && (forall q | 0 <= q < p :: b[q] < v) && (p < |b| ==> b[p] > v)
    ensures Ascending(b[..p] + [v] + b[p..])
  {
    var c := b[..p] + [v] + b[p..];
    assert forall k | 0 <= k < |c| :: c[k] == if k < p then b[k] else if k == p then v else b[k - 1];
  }

  // ---------------------------------------------------------------- The fast table

  /** The tables of a book before the fast one is built; a sparse book keeps no codewords. */
  ghost predicate TablesOk(b: Book, lens: seq<nat>, leaves: seq<Leaf>) {
    && |lens| == b.entries && LengthsOk(lens) && LeavesAre(lens, |lens|, leaves) && Apart(leaves)
    && SortOk(b.sparse, leaves, b.sortedCodewords, b.sortedEntries, b.sortedValues, b.lengths)
    && (!b.sparse ==>
          b.lengths == lens && |b.codewords| == |lens| && Entered(false, b.codewords, b.lengths, [], leaves))
  }

  /** What place `v` of a book's tables stands for. */
  predicate Denotes(b: Book, l: Leaf, v: int) {
    if b.sparse then 0 <= v < b.sortedEntries <= |b.sortedCodewords| &&
      b.sortedCodewords[v] == l.addr else v == l.symbol
  }

  /** A place denotes one leaf. */
  lemma DenotesOne(b: Book, lens: seq<nat>, leaves: seq<Leaf>, i: nat, j: nat, v: int)
    requires TablesOk(b, lens, leaves) && i < |leaves| && j < |leaves| && Denotes(b, leaves[i], v) &&
      Denotes(b, leaves[j], v)
    ensures i == j
  {
    hide SortOk, Entered, Apart;
    if b.sparse {
      SameAddr(leaves, i, j);
    } else {
      assert IsEntry(lens, |lens|, leaves[i], i) && IsEntry(lens, |lens|, leaves[j], j);
    }
  }

  /** Every leaf that a place denotes has its length there. */
  lemma DenotesLength(b: Book, lens: seq<nat>, leaves: seq<Leaf>, j: nat, v: int)
    requires TablesOk(b, lens, leaves) && j < |leaves| && Denotes(b, leaves[j], v)
    ensures 0 <= v < |b.lengths| && b.lengths[v] == leaves[j].len
    ensures v < if b.sparse then b.sortedEntries else b.entries
    ensures b.sparse ==> v < |b.sortedValues| && b.sortedValues[v] == leaves[j].symbol
  {
    hide SortedIs, Entered, Apart;
    assert IsEntry(lens, |lens|, leaves[j], j);
    if b.sparse {
      assert ValueAt(true, leaves[j], v, b.sortedValues, b.lengths);
    }
  }

  function CodewordAt(b: Book, v: nat): nat
    requires if b.sparse then v < |b.sortedCodewords| else v < |b.codewords|
  {
    if b.sparse then Rev(b.sortedCodewords[v], 32) else b.codewords[v]
  }

  /** Every place with a codeword denotes a leaf. */
  lemma PlaceDenotes(b: Book, lens: seq<nat>, leaves: seq<Leaf>, v: nat) returns (j: nat)
    requires TablesOk(b, lens, leaves) && v < |b.lengths| && b.lengths[v] != NO_CODE
    ensures j < |leaves| && Denotes(b, leaves[j], v)
    ensures (if b.sparse then v < |b.sortedCodewords| else v < |b.codewords|) &&
      CodewordAt(b, v) == Rev(leaves[j].addr, 32)
  {
    hide Apart;
    if b.sparse {
      assert b.sortedCodewords[..b.sortedEntries][v] in b.sortedCodewords[..b.sortedEntries];
      j := SortAddrsOnly(true, leaves, b.sortedCodewords[v]);
    } else {
      j := Coded(lens, v);
      assert HasLeaf(lens, leaves, v);
      assert EnteredAt(false, b.codewords, b.lengths, [], leaves[j], j);
    }
  }

  /** A hit for the low bits `z` denotes a leaf whose codeword they begin with. */
  ghost predicate FastHit(b: Book, leaves: seq<Leaf>, z: nat, v: int) {
    exists j :: 0 <= j < |leaves| && leaves[j].len <= FAST_LENGTH && Begins(z, leaves[j]) && Denotes(b, leaves[j], v)
  }

  /** Leaf `j` has a short codeword that `z` begins with, and place `v` before `limit`. */
  predicate FastWanted(b: Book, leaves: seq<Leaf>, z: nat, j: nat, v: nat, limit: nat) {
    j < |leaves| && leaves[j].len <= FAST_LENGTH && Begins(z, leaves[j]) && Denotes(b, leaves[j], v) && v < limit
  }

  /** Of the places before `limit`, those of short codewords are in the table, and the table holds nothing else. */
  ghost predicate FastOk(b: Book, leaves: seq<Leaf>, fast: seq<int>, limit: nat) {
    && |fast| == FAST_SIZE
    && (forall z | 0 <= z < FAST_SIZE && fast[z] >= 0 :: fast[z] < limit && FastHit(b, leaves, z, fast[z]))
    && (forall z, j, v | 0 <= z < FAST_SIZE && FastWanted(b, leaves, z, j, v, limit) :: fast[z] >= 0)
  }

  lemma NothingFast(b: Book, leaves: seq<Leaf>, fast: seq<int>)
    requires |fast| == FAST_SIZE && forall z | 0 <= z < FAST_SIZE :: fast[z] == -1
    ensures FastOk(b, leaves, fast, 0)
  {
  }

  lemma FastIsMarked(b: Book, lens: seq<nat>, leaves: seq<Leaf>, fast: seq<int>, i: nat, fast': seq<int>)
    requires TablesOk(b, lens, leaves) && FastOk(b, leaves, fast, i) && |fast'| == FAST_SIZE
    requires i < |b.lengths| && b.lengths[i] <= FAST_LENGTH &&
      if b.sparse then i < |b.sortedCodewords| else i < |b.codewords|
    requires forall w | 0 <= w < FAST_SIZE ::
      fast'[w] == if Low(w, b.lengths[i]) == CodewordAt(b, i) then i else fast[w]
    ensures FastOk(b, leaves, fast', i + 1)
  {
    hide TablesOk, Denotes, Low, Rev, CodewordAt;
    var j := PlaceDenotes(b, lens, leaves, i);
    DenotesLength(b, lens, leaves, j, i);
    forall z | 0 <= z < FAST_SIZE && fast'[z] >= 0
      ensures fast'[z] < i + 1 && FastHit(b, leaves, z, fast'[z])
    {
      if Low(z, b.lengths[i]) == CodewordAt(b, i) {
        assert Begins(z, leaves[j]);
      }
    }
    var next := i + 1;
    forall z, k, v | 0 <= z < FAST_SIZE && FastWanted(b, leaves, z, k, v, next)
      ensures fast'[z] >= 0
    {
      if v == i {
        DenotesOne(b, lens, leaves, j, k, i);
      } else {
        assert FastWanted(b, leaves, z, k, v, i);
      }
    }
  }

  lemma FastIsSkipped(b: Book, lens: seq<nat>, leaves: seq<Leaf>, fast: seq<int>, i: nat)
    requires TablesOk(b, lens, leaves) && FastOk(b, leaves, fast, i)
    requires i < |b.lengths| && b.lengths[i] > FAST_LENGTH
    ensures FastOk(b, leaves, fast, i + 1)
  {
    hide TablesOk, Denotes, Begins;
    var next := i + 1;
    forall z, k, v | 0 <= z < FAST_SIZE && FastWanted(b, leaves, z, k, v, next)
      ensures fast[z] >= 0
    {
      if v == i {
        DenotesLength(b, lens, leaves, k, i);
      } else {
        assert FastWanted(b, leaves, z, k, v, i);
      }
    }
  }

  /** With all places done, only the limit of the table's elements is left. */
  lemma FastIsComplete(b: Book, lens: seq<nat>, leaves: seq<Leaf>, fast: seq<int>, len: nat)
    requires TablesOk(b, lens, leaves) && FastOk(b, leaves, fast, len)
    requires len <= FAST_LIMIT && (len < FAST_LIMIT ==> len == |b.lengths|)
    ensures FastOk(b, leaves, fast, FAST_LIMIT)
  {
    hide TablesOk, Denotes, Begins;
    forall z: nat, k: nat, v: nat | z < FAST_SIZE && FastWanted(b, leaves, z, k, v, FAST_LIMIT)
      ensures fast[z] >= 0
    {
      DenotesLength(b, lens, leaves, k, v);
      assert FastWanted(b, leaves, z, k, v, len);
    }
  }

  /** The words between two neighbours with the same low bits have other low bits. */
  lemma NextSame(z: nat, w: nat, len: nat)
    requires Low(w, len) == Low(z, len) && z <= w < z + Pow2(len)
    ensures w == z
  {
    LowHigh(z, len);
    LowHigh(w, len);
    var p, h, g := Pow2(len), High(z, len), High(w, len);
    BlockIffQuotient(g, 0, h, p);
  }

  lemma {:induction false} LowOfNext(z: nat, len: nat)
    ensures Low(z + Pow2(len), len) == Low(z, len)
  {
    if len > 0 {
      LowOfNext(z / 2, len - 1);
      assert (z + 2 * Pow2(len - 1)) % 2 == z % 2 && (z + 2 * Pow2(len - 1)) / 2 == z / 2 + Pow2(len - 1);
    }
  }

  /** Sets the table for all words with the low bits `code`. */
  method MarkFast(fast: array<int>, code: nat, len: nat, i: int)
    requires fast.Length == FAST_SIZE && code < Pow2(len)
    modifies fast
    ensures forall w | 0 <= w < FAST_SIZE :: fast[w] == if Low(w, len) == code then i else old(fast[w])
  {
    var z := code;
    LowOfSmall(code, len);
    BelowCode(code, len);
    while z < FAST_SIZE
      invariant Low(z, len) == code
      invariant forall w | 0 <= w < FAST_SIZE :: fast[w] == if w < z && Low(w, len) == code then i else old(fast[w])
      decreases FAST_SIZE - z
    {
      fast[z] := i;
      LowOfNext(z, len);
      forall w | z < w < z + Pow2(len)
        ensures Low(w, len) != code
      {
        if Low(w, len) == code {
          NextSame(z, w, len);
        }
      }
      z := z + Pow2(len);
    }
  }

  lemma BelowCode(code: nat, len: nat)
    requires code < Pow2(len)
    ensures forall w: nat | w < code :: Low(w, len) != code
  {
    forall w: nat | w < code
      ensures Low(w, len) != code
    {
      LowOfSmall(w, len);
    }
  }
}
