/** The tables of a Vorbis codebook (`compute_codewords`, `compute_sorted_huffman`, `compute_accelerated_huffman`). */
module HuffmanBook {
  import opened Bits
  import opened HuffmanTree
  import opened HuffmanCodes
  import opened HuffmanTables

  // ---------------------------------------------------------------- The table of free leaves

  /** The levels above `len` at first. */
  method FillAvailable(available: array<nat>, symbol: nat, len: nat)
    requires available.Length == 32 && 1 <= len < 32 && forall y | 0 <= y < 32 :: available[y] == 0
    modifies available
    ensures available[..] == FirstTree(symbol, len).available
  {
    var i := 1;
    while i <= len
      invariant 1 <= i <= len + 1
      invariant forall y | 0 <= y < 32 :: available[y] == if 1 <= y < i then Size(y) else 0
    {
      available[i] := Size(i);
      i := i + 1;
    }
  }

  method DeepestAvailable(available: array<nat>, len: nat) returns (z: nat)
    requires len < available.Length
    ensures z == Deepest(available[..], len)
  {
    z := len;
    while z > 0 && available[z] == 0
      invariant 0 <= z <= len && Deepest(available[..], z) == Deepest(available[..], len)
    {
      z := z - 1;
    }
  }

  /** Hands the levels from `len` up to below `z` the upper halves of the block that was at `z`. */
  method SplitAvailable(available: array<nat>, z: nat, len: nat) returns (res: nat)
    requires available.Length == 32 && 0 < z <= len < 32
    modifies available
    ensures res == old(available[z]) && available[..] == Split(old(available[..]), z, len)
  {
    res := available[z];
    available[z] := 0;
    var y := len;
    while y > z
      invariant z <= y <= len
      invariant forall i | 0 <= i < 32 ::
        available[i] == if i == z then 0 else if y < i <= len then res + Size(i) else old(available[i])
    {
      available[y] := res + Size(y);
      y := y - 1;
    }
  }

  lemma {:induction false} OverfullStays(lens: seq<nat>, j: nat, k: nat)
    requires LengthsOk(lens) && j <= k <= |lens| && Assign(lens, j).Overfull?
    ensures Assign(lens, k).Overfull?
    decreases k
  {
    if j < k {
      OverfullStays(lens, j, k - 1);
    }
  }

  /** The tables have room for entry `i`, which comes next. */
  lemma NextHasRoom(sparse: bool, codewords: seq<nat>, lengths: seq<nat>, values: seq<nat>, lens: seq<nat>, i: nat)
    requires LengthsOk(lens) && i < |lens| && !Assign(lens, i).Overfull? && lens[i] != NO_CODE
    requires TablesFit(sparse, codewords, lengths, values, lens)
    ensures Room(sparse, codewords, lengths, values, LeavesOf(Assign(lens, i)), i)
  {
    hide Assign;
    AssignLeaves(lens, i);
    CodedGrows(lens, i, |lens|);
    var leaves := LeavesOf(Assign(lens, i));
    forall j | 0 <= j < |leaves|
      ensures leaves[j].symbol != i
    {
      assert IsEntry(lens, i, leaves[j], j);
    }
  }

  class Codebook {
    var entries: nat
    var sparse: bool
    var sortedEntries: nat
    var codewords: seq<nat>
    var codewordLengths: seq<nat>
    var sortedCodewords: seq<nat>
    var sortedValues: seq<nat>
    const fastHuffman: array<int>

    constructor ()
      ensures fresh(fastHuffman) && fastHuffman.Length == FAST_SIZE
    {
      fastHuffman := new int[FAST_SIZE];
    }

    method AddEntry(huffCode: nat, symbol: nat, count: nat, len: nat, values: seq<nat>, ghost leaves: seq<Leaf>,
                    ghost addr: nat)
      returns (out: seq<nat>)
      requires count == |leaves| && huffCode == Rev(addr, 32)
      requires Entered(sparse, codewords, codewordLengths, values, leaves)
      requires Room(sparse, codewords, codewordLengths, values, leaves, symbol)
      modifies this`codewords, this`codewordLengths
      ensures Entered(sparse, codewords, codewordLengths, out, leaves + [Leaf(symbol, addr, len)])
      ensures |codewords| == |old(codewords)| && |codewordLengths| == |old(codewordLengths)| && |out| == |values|
      ensures !sparse ==> codewordLengths == old(codewordLengths)
    {
      EntryIsEntered(sparse, codewords, codewordLengths, values, leaves, Leaf(symbol, addr, len));
      out := values;
      if !sparse {
        codewords := codewords[symbol := huffCode];
      } else {
        codewords := codewords[count := huffCode];
        codewordLengths := codewordLengths[count := len];
        out := out[count := symbol];
      }
    }

    /** Assigns codewords to the entries with lengths `len`; fails if there are not enough. */
    method ComputeCodewords(len: seq<nat>, values: seq<nat>) returns (ok: bool, out: seq<nat>)
      requires LengthsOk(len) && TablesFit(sparse, codewords, codewordLengths, values, len)
      modifies this`codewords, this`codewordLengths
      ensures TablesFit(sparse, codewords, codewordLengths, out, len)
      ensures ok == !Assign(len, |len|).Overfull?
      ensures ok ==> Entered(sparse, codewords, codewordLengths, out, LeavesOf(Assign(len, |len|)))
    {
      hide Entered, Room, TablesFit, Split, Deepest, Size, Rev;
      ok, out := true, values;
      var k := 0;
      while k < |len| && len[k] == NO_CODE
        invariant k <= |len| && Assign(len, k).NotStarted?
      {
        k := k + 1;
      }
      if k == |len| {
        NothingEntered(sparse, codewords, codewordLengths, values);
        return;
      }
      var available := new nat[32](_ => 0);
      out := PlaceFirst(available, len, k, values);
      var m, i := 1, k + 1;
      while i < |len|
        invariant k < i <= |len| && Assign(len, i).Built?
        invariant available[..] == Assign(len, i).tree.available && m == |Assign(len, i).tree.leaves|
        invariant TablesFit(sparse, codewords, codewordLengths, out, len)
        invariant Entered(sparse, codewords, codewordLengths, out, Assign(len, i).tree.leaves)
      {
        if len[i] != NO_CODE {
          ok, out := PlaceEntry(available, len, i, m, out);
          if !ok {
            OverfullStays(len, i + 1, |len|);
            return;
          }
          m := m + 1;
        }
        i := i + 1;
      }
    }

    /** Gives the first entry with a codeword the codeword 0, and frees the rest of the space. */
    method PlaceFirst(available: array<nat>, len: seq<nat>, k: nat, values: seq<nat>) returns (out: seq<nat>)
      requires LengthsOk(len) && TablesFit(sparse, codewords, codewordLengths, values, len)
      requires k < |len| && Assign(len, k).NotStarted? && len[k] != NO_CODE
      requires available.Length == 32 && forall y | 0 <= y < 32 :: available[y] == 0
      modifies this`codewords, this`codewordLengths, available
      ensures TablesFit(sparse, codewords, codewordLengths, out, len)
      ensures Assign(len, k + 1).Built? && available[..] == Assign(len, k + 1).tree.available
      ensures |Assign(len, k + 1).tree.leaves| == 1
      ensures Entered(sparse, codewords, codewordLengths, out, Assign(len, k + 1).tree.leaves)
    {
      hide Entered, Room, TablesFit, Split, Deepest, Size, Rev;
      NextHasRoom(sparse, codewords, codewordLengths, values, len, k);
      NothingEntered(sparse, codewords, codewordLengths, values);
      RevZero(32);
      out := AddEntry(0, k, 0, len[k], values, [], 0);
      StillFits(sparse, old(codewords), old(codewordLengths), values, codewords, codewordLengths, out, len);
      FillAvailable(available, k, len[k]);
      assert FirstTree(k, len[k]).leaves == [] + [Leaf(k, 0, len[k])];
    }

    /** One turn of the loop above: finds the lowest free leaf for entry `i` and splits it. */
    method PlaceEntry(available: array<nat>, len: seq<nat>, i: nat, m: nat, values: seq<nat>)
      returns (ok: bool, out: seq<nat>)
      requires LengthsOk(len) && TablesFit(sparse, codewords, codewordLengths, values, len)
      requires i < |len| && Assign(len, i).Built? && len[i] != NO_CODE
      requires available[..] == Assign(len, i).tree.available && m == |Assign(len, i).tree.leaves|
      requires Entered(sparse, codewords, codewordLengths, values, Assign(len, i).tree.leaves)
      modifies this`codewords, this`codewordLengths, available
      ensures TablesFit(sparse, codewords, codewordLengths, out, len)
      ensures !ok ==> Assign(len, i + 1).Overfull?
      ensures ok ==> Assign(len, i + 1).Built? && available[..] == Assign(len, i + 1).tree.available
      ensures ok ==> |Assign(len, i + 1).tree.leaves| == m + 1
      ensures ok ==> Entered(sparse, codewords, codewordLengths, out, Assign(len, i + 1).tree.leaves)
    {
      hide Entered, Room, TablesFit, Split, Deepest, Size, Rev;
      ghost var t := Assign(len, i).tree;
      var z := DeepestAvailable(available, len[i]);
      if z == 0 {
        return false, values;
      }
      var res := SplitAvailable(available, z, len[i]);
      NextHasRoom(sparse, codewords, codewordLengths, values, len, i);
      ok := true;
      out := AddEntry(Rev(res, 32), i, m, len[i], values, t.leaves, res);
      StillFits(sparse, old(codewords), old(codewordLengths), values, codewords, codewordLengths, out, len);
    }

    /** The codewords to be sorted, in the order of the entries. */
    method CodewordsToSort(lengths: seq<nat>, values: seq<nat>, ghost leaves: seq<Leaf>) returns (list: seq<nat>)
      requires Tabled(sparse, codewords, codewordLengths, values, lengths, leaves)
      ensures list == SortAddrs(sparse, leaves)
    {
      hide Tabled, Rev, SortAddrs, Coded;
      list := [];
      var n := EntryCount(lengths, values, leaves);
      var i := 0;
      NothingSorted(sparse, lengths, leaves);
      while i < n
        invariant 0 <= i <= n && LeavesBefore(sparse, lengths, i) <= |leaves|
        invariant list == SortAddrs(sparse, leaves[..LeavesBefore(sparse, lengths, i)])
      {
        EntryHasLeaf(sparse, codewords, codewordLengths, values, lengths, leaves, i);
        var huffLen := if sparse then lengths[values[i]] else lengths[i];
        if huffLen != NO_CODE {
          SortAddrsNext(sparse, leaves, LeavesBefore(sparse, lengths, i));
          if IncludeInSort(sparse, huffLen) {
            list := list + [Rev(codewords[i], 32)];
          }
        }
        i := i + 1;
      }
      AllLeavesAre(lengths, values, leaves);
    }

    /** Sorts the codewords, and records for each which entry it belongs to. */
    method ComputeSorted(lengths: seq<nat>, values: seq<nat>, ghost leaves: seq<Leaf>)
      requires Tabled(sparse, codewords, codewordLengths, values, lengths, leaves)
      requires sortedEntries == |sortedValues| == |SortAddrs(sparse, leaves)|
      requires sparse ==> |codewordLengths| == sortedEntries
      modifies this`sortedCodewords, this`sortedValues, this`codewordLengths
      ensures SortOk(sparse, leaves, sortedCodewords, sortedEntries, sortedValues, codewordLengths)
      ensures |sortedCodewords| == sortedEntries + 1 && (!sparse ==> codewordLengths == old(codewordLengths))
    {
      hide Tabled, Rev, SortAddrs, Coded, SortedIs, ValuesAre, Apart, Ascending, Distinct;
      ghost var lengths0 := codewordLengths;
      var list := CodewordsToSort(lengths, values, leaves);
      AllDistinct(lengths, values, leaves);
      list := SortCodewords(list);
      sortedCodewords := list + [WORD - 1];
      ghost var table := sortedCodewords;
      SortedCodewordsAre(sparse, leaves, list, table);
      var n := EntryCount(lengths, values, leaves);
      AllLeavesAre(lengths, values, leaves);
      NothingValued(sparse, lengths, leaves, sortedCodewords, sortedEntries, sortedValues, codewordLengths);
      var i := 0;
      while i < n
        invariant 0 <= i <= n && LeavesBefore(sparse, lengths, i) <= |leaves|
        invariant sortedCodewords == table && |sortedValues| == sortedEntries &&
          (sparse ==> |codewordLengths| == sortedEntries)
        invariant !sparse ==> codewordLengths == lengths0
        invariant ValuesAre(sparse, leaves[..LeavesBefore(sparse, lengths, i)], sortedCodewords, sortedEntries,
          sortedValues, codewordLengths)
      {
        EntryHasLeaf(sparse, codewords, lengths0, values, lengths, leaves, i);
        ghost var j := LeavesBefore(sparse, lengths, i);
        var huffLen := if sparse then lengths[values[i]] else lengths[i];
        if IncludeInSort(sparse, huffLen) {
          var x := PlaceOf(Rev(codewords[i], 32), lengths0, lengths, values, leaves, j);
          ValueIsSet(sparse, leaves, j, sortedCodewords, sortedEntries, x, sortedValues, codewordLengths);
          if sparse {
            sortedValues := sortedValues[x := values[i]];
            codewordLengths := codewordLengths[x := huffLen];
          } else {
            sortedValues := sortedValues[x := i];
          }
        } else if huffLen != NO_CODE {
          ValueIsSkipped(sparse, leaves, j, sortedCodewords, sortedEntries, sortedValues, codewordLengths);
        }
        i := i + 1;
      }
    }

    /** Searches the sorted codewords for the codeword of leaf `j`. */
    method PlaceOf(code: nat, ghost lengths0: seq<nat>, ghost lengths: seq<nat>, ghost values: seq<nat>,
                   ghost leaves: seq<Leaf>, ghost j: nat)
      returns (x: nat)
      requires Tabled(sparse, codewords, lengths0, values, lengths, leaves)
      requires SortedIs(sparse, leaves, sortedCodewords, sortedEntries)
      requires j < |leaves| && IncludeInSort(sparse, leaves[j].len) && code == leaves[j].addr
      ensures x < sortedEntries <= |sortedCodewords| && sortedCodewords[x] == code
    {
      hide Apart, SortAddrs, Ascending, Entered, TablesFit, LeavesAre;
      ghost var place := PlaceOfLeaf(sparse, leaves, sortedCodewords, sortedEntries, j);
      InOwnLeaf(leaves, j);
      assert LastAtMost(sortedCodewords, sortedEntries, code, place);
      x := SearchSorted(sortedCodewords, sortedEntries, code);
    }

    lemma AllDistinct(lengths: seq<nat>, values: seq<nat>, leaves: seq<Leaf>)
      requires Tabled(sparse, codewords, codewordLengths, values, lengths, leaves)
      ensures Distinct(SortAddrs(sparse, leaves)) && Apart(leaves)
    {
      assert leaves[..|leaves|] == leaves;
      SortAddrsDistinct(sparse, leaves, |leaves|);
    }

    function View(): Book
      reads this, fastHuffman
    {
      Book(entries, sparse, sortedEntries, codewords, codewordLengths, sortedCodewords, sortedValues, fastHuffman[..])
    }

    /** Lists in the fast table, for every word of ten bits, the place of the short codeword that it begins with. */
    method ComputeAccelerated(ghost lens: seq<nat>, ghost leaves: seq<Leaf>)
      requires TablesOk(View(), lens, leaves) && fastHuffman.Length == FAST_SIZE
      modifies fastHuffman
      ensures TablesOk(View(), lens, leaves) && FastOk(View(), leaves, fastHuffman[..], FAST_LIMIT)
    {
      hide FastOk, Denotes, Begins, Low, Rev;
      ghost var b := View();
      for i := 0 to FAST_SIZE
        invariant forall z | 0 <= z < i :: fastHuffman[z] == -1
      {
        fastHuffman[i] := -1;
      }
      NothingFast(b, leaves, fastHuffman[..]);
      var len := if sparse then sortedEntries else entries;
      if len > FAST_LIMIT {
        len := FAST_LIMIT;
      }
      for i := 0 to len
        invariant FastOk(b, leaves, fastHuffman[..], i)
      {
        if codewordLengths[i] <= FAST_LENGTH {
          CodewordFits(b, lens, leaves, i);
          var z := if sparse then Rev(sortedCodewords[i], 32) else codewords[i];
          ghost var fast := fastHuffman[..];
          MarkFast(fastHuffman, z, codewordLengths[i], i);
          FastIsMarked(b, lens, leaves, fast, i, fastHuffman[..]);
        } else {
          FastIsSkipped(b, lens, leaves, fastHuffman[..], i);
        }
      }
      FastIsComplete(b, lens, leaves, fastHuffman[..], len);
      FastIgnoresFast(b, View(), lens, leaves, fastHuffman[..]);
    }

    /** Builds all tables from the lengths that a setup header gives; fails if they ask for too many codewords. */
    method SetUp(lens: seq<nat>, markedSparse: bool) returns (ok: bool, ghost leaves: seq<Leaf>)
      requires LengthsOk(lens) && fastHuffman.Length == FAST_SIZE
      modifies this, fastHuffman
      ensures ok == !Assign(lens, |lens|).Overfull?
      ensures ok ==> leaves == LeavesOf(Assign(lens, |lens|)) && TablesOk(View(), lens, leaves)
      ensures ok ==> FastOk(View(), leaves, fastHuffman[..], FAST_LIMIT)
      ensures sparse == (markedSparse && Coded(lens, |lens|) < |lens| / 4)
    {
      hide Assign, TablesOk, FastOk, LeavesAre, Apart, Entered, Tabled, SortOk, TablesFit;
      leaves := [];
      var values := Allocate(lens, markedSparse);
      ok, values := ComputeCodewords(lens, values);
      if ok {
        leaves := LeavesOf(Assign(lens, |lens|));
        CodewordsAreTabled(sparse, codewords, codewordLengths, values, lens, leaves);
        BuildTables(lens, values, leaves);
      }
    }

    /** Sizes the tables. */
    method Allocate(lens: seq<nat>, markedSparse: bool) returns (values: seq<nat>)
      modifies this
      ensures entries == |lens| && sparse == (markedSparse && Coded(lens, |lens|) < |lens| / 4)
      ensures sortedEntries == CountToSort(sparse, lens, |lens|)
      ensures TablesFit(sparse, codewords, codewordLengths, values, lens)
    {
      entries := |lens|;
      var total := CountEntries(true, lens);
      CountIsCoded(lens, |lens|);
      sparse := markedSparse && total < entries / 4;
      sortedEntries := total;
      if !sparse {
        sortedEntries := CountEntries(false, lens);
        codewords, codewordLengths, values := seq(entries, _ => 0), lens, [];
      } else {
        codewords, codewordLengths, values := seq(total, _ => 0), seq(total, _ => 0), seq(total, _ => 0);
      }
    }

    /** Builds the tables for decoding from the codewords. */
    method BuildTables(lens: seq<nat>, values: seq<nat>, ghost leaves: seq<Leaf>)
      requires LengthsOk(lens) && |lens| == entries && fastHuffman.Length == FAST_SIZE
      requires Tabled(sparse, codewords, codewordLengths, values, lens, leaves)
      requires sortedEntries == |SortAddrs(sparse, leaves)|
      modifies this`codewords, this`codewordLengths, this`sortedCodewords, this`sortedValues, fastHuffman
      ensures TablesOk(View(), lens, leaves) && FastOk(View(), leaves, fastHuffman[..], FAST_LIMIT)
    {
      hide TablesOk, FastOk, Tabled, SortOk, LengthsOk;
      ghost var lengths := codewordLengths;
      LengthsFit(sparse, codewords, lengths, values, lens, leaves);
      SortedIsEmpty(sparse, lens, leaves, lengths);
      sortedCodewords, sortedValues := [], [];
      if sortedEntries > 0 {
        sortedValues := seq(sortedEntries, _ => 0);
        ComputeSorted(lens, values, leaves);
      }
      TabledIsOk(View(), lengths, values, lens, leaves);
      if sparse {
        codewords := [];
      }
      ComputeAccelerated(lens, leaves);
    }

    /** Counts the entries to be sorted. */
    method CountEntries(isSparse: bool, lens: seq<nat>) returns (n: nat)
      ensures n == CountToSort(isSparse, lens, |lens|)
    {
      n := 0;
      for j := 0 to |lens|
        invariant n == CountToSort(isSparse, lens, j)
      {
        if IncludeInSort(isSparse, lens[j]) {
          n := n + 1;
        }
      }
    }

    method EntryCount(lengths: seq<nat>, values: seq<nat>, ghost leaves: seq<Leaf>) returns (n: nat)
      requires Tabled(sparse, codewords, codewordLengths, values, lengths, leaves)
      ensures n == TableEntries(sparse, lengths) && (sparse ==> n == |leaves|)
    {
      n := if sparse then |codewords| else |lengths|;
    }

    lemma AllLeavesAre(lengths: seq<nat>, values: seq<nat>, leaves: seq<Leaf>)
      requires Tabled(sparse, codewords, codewordLengths, values, lengths, leaves)
      ensures LeavesBefore(sparse, lengths, TableEntries(sparse, lengths)) == |leaves| && leaves[..|leaves|] == leaves
    {
      AllLeavesBefore(sparse, lengths, leaves);
    }
  }

  lemma {:induction false} CountIsCoded(lens: seq<nat>, k: nat)
    requires k <= |lens|
    ensures CountToSort(true, lens, k) == Coded(lens, k)
  {
    if k > 0 {
      CountIsCoded(lens, k - 1);
    }
  }

  lemma CodewordsAreTabled(sparse: bool, codewords: seq<nat>, lengths: seq<nat>, values: seq<nat>, lens: seq<nat>,
                           leaves: seq<Leaf>)
    requires LengthsOk(lens) && TablesFit(sparse, codewords, lengths, values, lens)
    requires !Assign(lens, |lens|).Overfull? && leaves == LeavesOf(Assign(lens, |lens|))
    requires Entered(sparse, codewords, lengths, values, leaves)
    ensures Tabled(sparse, codewords, lengths, values, lens, leaves)
    ensures |SortAddrs(sparse, leaves)| == CountToSort(sparse, lens, |lens|)
  {
    hide Assign, Entered, TablesFit, Tiled, Apart;
    AssignLeaves(lens, |lens|);
    AssignTiles(lens, |lens|);
    if Assign(lens, |lens|).Built? {
      TiledIsApart(Assign(lens, |lens|).tree);
    } else {
      NoneApart();
    }
    CountIsSortAddrs(sparse, lens, leaves, |lens|);
    assert leaves[..|leaves|] == leaves;
  }

  lemma NoneApart()
    ensures Apart([])
  {
  }

  lemma SortedIsEmpty(sparse: bool, lens: seq<nat>, leaves: seq<Leaf>, lengths: seq<nat>)
    requires sparse ==> |lengths| == |SortAddrs(true, leaves)|
    ensures |SortAddrs(sparse, leaves)| == 0 ==> SortOk(sparse, leaves, [], 0, [], lengths)
  {
  }

  lemma LengthsFit(sparse: bool, codewords: seq<nat>, lengths: seq<nat>, values: seq<nat>, lens: seq<nat>,
                   leaves: seq<Leaf>)
    requires Tabled(sparse, codewords, lengths, values, lens, leaves)
    ensures sparse ==> |lengths| == |SortAddrs(true, leaves)|
  {
    if sparse {
      forall i | 0 <= i < |leaves|
        ensures leaves[i].len != NO_CODE
      {
        LeafLength(lens, leaves, i);
      }
      AllAreSorted(leaves);
    }
  }

  /** The codewords stay those of the tables while the other tables are built. */
  lemma TabledIsOk(b: Book, lengths: seq<nat>, values: seq<nat>, lens: seq<nat>, leaves: seq<Leaf>)
    requires Tabled(b.sparse, b.codewords, lengths, values, lens, leaves) && (!b.sparse ==> b.lengths == lengths)
    requires |lens| == b.entries && LengthsOk(lens)
    requires SortOk(b.sparse, leaves, b.sortedCodewords, b.sortedEntries, b.sortedValues, b.lengths)
    ensures TablesOk(b, lens, leaves)
    ensures b.sparse ==> TablesOk(b.(codewords := []), lens, leaves)
  {
    hide SortOk, Apart, LeavesAre;
    if !b.sparse {
      forall i | 0 <= i < |leaves|
        ensures EnteredAt(false, b.codewords, b.lengths, [], leaves[i], i)
      {
        assert EnteredAt(false, b.codewords, b.lengths, values, leaves[i], i);
      }
    }
  }

  lemma CodewordFits(b: Book, lens: seq<nat>, leaves: seq<Leaf>, v: nat)
    requires TablesOk(b, lens, leaves) && v < |b.lengths| && b.lengths[v] != NO_CODE
    ensures (if b.sparse then v < |b.sortedCodewords| else v < |b.codewords|) && CodewordAt(b, v) < Pow2(b.lengths[v])
  {
    hide TablesOk, Rev, Pow2;
    var j := PlaceDenotes(b, lens, leaves, v);
    DenotesLength(b, lens, leaves, j, v);
    AllLeavesOk(b, lens, leaves, j);
    BeginsIffInLeaf(0, leaves[j]);
  }

  lemma AllLeavesOk(b: Book, lens: seq<nat>, leaves: seq<Leaf>, j: nat)
    requires TablesOk(b, lens, leaves) && j < |leaves|
    ensures LeafOk(leaves[j])
  {
  }

  lemma FastIgnoresFast(b: Book, c: Book, lens: seq<nat>, leaves: seq<Leaf>, fast: seq<int>)
    requires c == b.(fast := c.fast) && TablesOk(b, lens, leaves) && FastOk(b, leaves, fast, FAST_LIMIT)
    ensures TablesOk(c, lens, leaves) && FastOk(c, leaves, fast, FAST_LIMIT)
  {
    hide LeavesAre, Apart, SortOk, Entered, Begins;
    forall z | 0 <= z < FAST_SIZE && fast[z] >= 0
      ensures FastHit(c, leaves, z, fast[z])
    {
      assert FastHit(b, leaves, z, fast[z]);
    }
    forall z, k, v | 0 <= z < FAST_SIZE && FastWanted(c, leaves, z, k, v, FAST_LIMIT)
      ensures fast[z] >= 0
    {
      assert FastWanted(b, leaves, z, k, v, FAST_LIMIT);
    }
  }

  lemma SortedCodewordsAre(sparse: bool, leaves: seq<Leaf>, list: seq<nat>, sorted: seq<nat>)
    requires Ascending(list) && |list| == |SortAddrs(sparse, leaves)|
    requires forall x :: x in list <==> x in SortAddrs(sparse, leaves)
    requires sorted == list + [WORD - 1]
    ensures SortedIs(sparse, leaves, sorted, |list|)
  {
    assert sorted[..|list|] == list;
  }

  lemma NothingSorted(sparse: bool, lens: seq<nat>, leaves: seq<Leaf>)
    ensures LeavesBefore(sparse, lens, 0) == 0 && SortAddrs(sparse, leaves[..0]) == []
  {
  }
}
