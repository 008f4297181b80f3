/** What the assignment of codewords gives every entry: one codeword of its length, the lowest that was unused, and
no codeword that begins another. */
module HuffmanCodes {
  import opened Bits
  import opened HuffmanTree

  /** How many of the first `k` entries have a codeword. */
  function Coded(lens: seq<nat>, k: nat): nat
    requires k <= |lens|
  {
    if k == 0 then 0 else Coded(lens, k - 1) + if lens[k - 1] == NO_CODE then 0 else 1
  }

  lemma {:induction false} CodedGrows(lens: seq<nat>, j: nat, k: nat)
    requires j <= k <= |lens|
    ensures Coded(lens, j) <= Coded(lens, k)
    ensures j < k && lens[j] != NO_CODE ==> Coded(lens, j) < Coded(lens, k)
    decreases k
  {
    if j < k {
      CodedGrows(lens, j, k - 1);
    }
  }

  ghost predicate IsEntry(lens: seq<nat>, k: nat, l: Leaf, i: nat)
    requires k <= |lens|
  {
    l.symbol < k && lens[l.symbol] == l.len != NO_CODE && Coded(lens, l.symbol) == i
  }

  ghost predicate HasLeaf(lens: seq<nat>, leaves: seq<Leaf>, s: nat)
    requires s < |lens|
  {
    Coded(lens, s) < |leaves| && leaves[Coded(lens, s)].symbol == s
  }

  /** The leaves are the coded entries in order. */
  ghost predicate LeavesAre(lens: seq<nat>, k: nat, leaves: seq<Leaf>)
    requires k <= |lens|
  {
    && |leaves| == Coded(lens, k)
    && (forall i {:trigger IsEntry(lens, k, leaves[i], i)} | 0 <= i < |leaves| :: IsEntry(lens, k, leaves[i], i))
    && (forall s: nat {:trigger HasLeaf(lens, leaves, s)} | s < k && lens[s] != NO_CODE :: HasLeaf(lens, leaves, s))
  }

  function LeavesOf(b: Build): seq<Leaf> {
    if b.Built? then b.tree.leaves else []
  }

  lemma {:induction false} AssignLeaves(lens: seq<nat>, k: nat)
    requires LengthsOk(lens) && k <= |lens| && !Assign(lens, k).Overfull?
    ensures LeavesAre(lens, k, LeavesOf(Assign(lens, k)))
  {
    hide LeavesAre, Split, Deepest, Size;
    if k > 0 {
      AssignLeaves(lens, k - 1);
      var before, after := LeavesOf(Assign(lens, k - 1)), LeavesOf(Assign(lens, k));
      if lens[k - 1] == NO_CODE {
        NoLeafAdded(lens, k, before);
      } else {
        assert after == before + [Leaf(k - 1, after[|before|].addr, lens[k - 1])];
        LeafAdded(lens, k, before, after[|before|].addr);
      }
    } else {
      NoLeaves(lens);
    }
  }

  lemma NoLeaves(lens: seq<nat>)
    ensures LeavesAre(lens, 0, [])
  {
  }

  lemma NoLeafAdded(lens: seq<nat>, k: nat, leaves: seq<Leaf>)
    requires 0 < k <= |lens| && LeavesAre(lens, k - 1, leaves) && lens[k - 1] == NO_CODE
    ensures LeavesAre(lens, k, leaves)
  {
    hide HasLeaf;
    forall i | 0 <= i < |leaves|
      ensures IsEntry(lens, k, leaves[i], i)
    {
      assert IsEntry(lens, k - 1, leaves[i], i);
    }
  }

  lemma LeafAdded(lens: seq<nat>, k: nat, leaves: seq<Leaf>, addr: nat)
    requires 0 < k <= |lens| && LeavesAre(lens, k - 1, leaves) && lens[k - 1] != NO_CODE
    ensures LeavesAre(lens, k, leaves + [Leaf(k - 1, addr, lens[k - 1])])
  {
    var after := leaves + [Leaf(k - 1, addr, lens[k - 1])];
    forall i | 0 <= i < |after|
      ensures IsEntry(lens, k, after[i], i)
    {
      assert i < |leaves| ==> IsEntry(lens, k - 1, leaves[i], i);
    }
    forall s: nat | s < k && lens[s] != NO_CODE
      ensures HasLeaf(lens, after, s)
    {
      assert s < k - 1 ==> HasLeaf(lens, leaves, s);
    }
  }

  // ---------------------------------------------------------------- Lowest unused codewords

  ghost predicate Lowest(leaves: seq<Leaf>, i: nat)
    requires i < |leaves| && leaves[i].len <= 32
  {
    && Unused(leaves[..i], leaves[i].addr, leaves[i].len)
    && forall a: nat | Aligned(a, 32 - leaves[i].len) && a + Size(leaves[i].len) <= WORD
         && Unused(leaves[..i], a, leaves[i].len) :: leaves[i].addr <= a
  }

  lemma LowestExtends(before: seq<Leaf>, after: seq<Leaf>, i: nat)
    requires i < |before| <= |after| && after[..|before|] == before && before[i].len <= 32 && Lowest(before, i)
    ensures after[i] == before[i] && Lowest(after, i)
  {
    assert after[..i] == before[..i] && after[i] == before[i];
  }

  lemma FirstIsLowest(symbol: nat, len: nat)
    requires 1 <= len < 32
    ensures Lowest(FirstTree(symbol, len).leaves, 0)
  {
    assert FirstTree(symbol, len).leaves[..0] == [];
  }

  /** Section 3.2.1 of the Vorbis I specification, for every entry of a codebook. */
  lemma {:induction false} EachGetsLowest(lens: seq<nat>, k: nat, i: nat)
    requires LengthsOk(lens) && k <= |lens| && Assign(lens, k).Built? && i < |Assign(lens, k).tree.leaves|
    ensures Assign(lens, k).tree.leaves[i].len <= 32 && Lowest(Assign(lens, k).tree.leaves, i)
  {
    hide Lowest, Tiled, Split, Size;
    var before, len := Assign(lens, k - 1), lens[k - 1];
    var leaves := Assign(lens, k).tree.leaves;
    if len == NO_CODE {
      EachGetsLowest(lens, k - 1, i);
    } else if before.NotStarted? {
      FirstIsLowest(k - 1, len);
    } else if i < |before.tree.leaves| {
      EachGetsLowest(lens, k - 1, i);
      LowestExtends(before.tree.leaves, leaves, i);
    } else {
      AssignTiles(lens, k - 1);
      LastIsLowest(before.tree, Deepest(before.tree.available, len), leaves[i], Assign(lens, k).tree);
    }
  }

  lemma LastIsLowest(t: Tree, z: nat, leaf: Leaf, t': Tree)
    requires Tiled(t) && PlacedAt(t, z, leaf, t')
    ensures Lowest(t'.leaves, |t.leaves|)
  {
    hide Tiled, Aligned, Unused, Size;
    assert t'.leaves[..|t.leaves|] == t.leaves && t'.leaves[|t.leaves|] == leaf;
    PlacesUnused(t, z, leaf, t');
    forall a: nat | Aligned(a, 32 - leaf.len) && a + Size(leaf.len) <= WORD && Unused(t.leaves, a, leaf.len)
      ensures leaf.addr <= a
    {
      PlacesLowest(t, z, leaf, t', a);
    }
  }

  // ---------------------------------------------------------------- Prefix-free

  /** A word of bits, first bit lowest, begins with the codeword of a leaf. */
  predicate Begins(x: nat, l: Leaf) {
    Low(x, l.len) == Rev(l.addr, 32)
  }

  lemma BeginsIffInLeaf(x: nat, l: Leaf)
    requires x < WORD && LeafOk(l)
    ensures Begins(x, l) <==> InLeaf(l, Rev(x, 32))
    ensures Rev(l.addr, 32) < Pow2(l.len)
  {
    BeginsIffInBlock(x, l.addr, l.len);
  }

  /** No word begins with two codewords. */
  lemma PrefixFree(t: Tree, x: nat, i: nat, j: nat)
    requires Tiled(t) && x < WORD && i < |t.leaves| && j < |t.leaves| && Begins(x, t.leaves[i]) &&
      Begins(x, t.leaves[j])
    ensures i == j
  {
    BeginsIffInLeaf(x, t.leaves[i]);
    BeginsIffInLeaf(x, t.leaves[j]);
  }
}
