/** Codeword assignment of Vorbis codebooks (`compute_codewords`). Codewords are addresses of blocks in a 32-bit
space, most significant bit first; the table of free leaves has at most one free block of each size. */
module HuffmanTree {
  import opened Bits

  const NO_CODE: nat := 255

  /** The size of the block of a codeword of length `len`. */
  function Size(len: nat): (s: nat)
    requires len <= 32
    ensures s > 0
  {
    Pow2(32 - len)
  }

  datatype Leaf = Leaf(symbol: nat, addr: nat, len: nat)

  /** `available[y]` is the address of the free block of size `Size(y)`, or 0. */
  datatype Tree = Tree(available: seq<nat>, leaves: seq<Leaf>)

  predicate InLeaf(l: Leaf, x: nat) {
    l.len <= 32 && l.addr <= x < l.addr + Size(l.len)
  }

  predicate InFree(available: seq<nat>, y: nat, x: nat) {
    1 <= y < 32 && y < |available| && available[y] != 0 && available[y] <= x < available[y] + Size(y)
  }

  /** The block at `a` of level `y` is the upper half of its parent. */
  predicate UpperHalf(a: nat, y: nat)
    requires 1 <= y <= 32
  {
    a >= Size(y) && Aligned(a - Size(y), 33 - y)
  }

  /** Free blocks are upper halves, and deeper (smaller) ones lie at lower addresses. */
  ghost predicate FreeOk(available: seq<nat>) {
    && |available| == 32 && available[0] == 0
    && (forall y | 1 <= y < 32 && available[y] != 0 :: UpperHalf(available[y], y) && available[y] + Size(y) <= WORD)
    && (forall y, z | 1 <= y < z < 32 && available[y] != 0 && available[z] != 0 ::
      available[z] + Size(z) <= available[y])
  }

  predicate LeafOk(l: Leaf) {
    1 <= l.len < 32 && Aligned(l.addr, 32 - l.len) && l.addr + Size(l.len) <= WORD
  }

  ghost predicate Covered(t: Tree, x: nat) {
    (exists i | 0 <= i < |t.leaves| :: InLeaf(t.leaves[i], x)) || (exists y :: InFree(t.available, y, x))
  }

  /** The assigned blocks and the free blocks tile the address space. */
  ghost predicate Tiled(t: Tree) {
    && FreeOk(t.available)
    && (forall i | 0 <= i < |t.leaves| :: LeafOk(t.leaves[i]))
    && (forall x: nat | x < WORD :: Covered(t, x))
    && (forall i, y, x | 0 <= i < |t.leaves| && InLeaf(t.leaves[i], x) :: !InFree(t.available, y, x))
    && (forall i, j, x | 0 <= i < j < |t.leaves| && InLeaf(t.leaves[i], x) :: !InLeaf(t.leaves[j], x))
  }

  // ---------------------------------------------------------------- The algorithm

  /** The deepest non-empty level from `z` upwards, or 0. */
  function Deepest(available: seq<nat>, z: nat): (y: nat)
    requires z < |available|
    ensures y <= z && (y > 0 ==> available[y] != 0)
    ensures forall i | y < i <= z :: available[i] == 0
  {
    if z > 0 && available[z] == 0 then Deepest(available, z - 1) else z
  }

  /** The table after the block of level `z` has been split to hold a codeword of length `len`. */
  function Split(available: seq<nat>, z: nat, len: nat): (out: seq<nat>)
    requires |available| == 32 && 0 < z <= len < 32
    ensures |out| == 32
  {
    seq(32, y requires 0 <= y < 32 =>
      if y == z then 0 else if z < y <= len then available[z] + Size(y) else available[y])
  }

  function FirstTree(symbol: nat, len: nat): Tree
    requires 1 <= len < 32
  {
    Tree(seq(32, y requires 0 <= y < 32 => if 1 <= y <= len then Size(y) else 0), [Leaf(symbol, 0, len)])
  }

  datatype Build = NotStarted | Overfull | Built(tree: Tree)

  function Place(t: Tree, symbol: nat, len: nat): Build
    requires |t.available| == 32 && 1 <= len < 32
  {
    var z := Deepest(t.available, len);
    if z == 0 then Overfull
    else Built(Tree(Split(t.available, z, len), t.leaves + [Leaf(symbol, t.available[z], len)]))
  }

  predicate LengthsOk(lens: seq<nat>) {
    forall i | 0 <= i < |lens| :: 1 <= lens[i] < 32 || lens[i] == NO_CODE
  }

  /** The tree after the first `k` entries. */
  function Assign(lens: seq<nat>, k: nat): (b: Build)
    requires LengthsOk(lens) && k <= |lens|
    ensures b.Built? ==> |b.tree.available| == 32
  {
    if k == 0 then NotStarted
    else
      var before := Assign(lens, k - 1);
      if before.Overfull? || lens[k - 1] == NO_CODE then before
      else if before.NotStarted? then Built(FirstTree(k - 1, lens[k - 1]))
      else Place(before.tree, k - 1, lens[k - 1])
  }

  // ---------------------------------------------------------------- Sizes

  lemma SizeHalves(y: nat)
    requires 1 <= y <= 32
    ensures Size(y - 1) == 2 * Size(y)
  {
  }

  lemma SizeShrinks(y: nat, z: nat)
    requires y <= z <= 32
    ensures Size(z) <= Size(y)
    ensures y < z ==> 2 * Size(z) <= Size(y)
  {
    Pow2Monotone(32 - z, 32 - y);
  }

  /** An upper half is aligned to its own size, ... */
  lemma UpperHalfAligned(a: nat, y: nat)
    requires 1 <= y <= 32 && UpperHalf(a, y)
    ensures Aligned(a, 32 - y)
  {
    AlignedSmaller(a - Size(y), 32 - y, 33 - y);
    Pow2Aligned(32 - y, 32 - y);
    AlignedAdd(a - Size(y), Size(y), 32 - y);
  }

  /** ... but not to its parent's size. */
  lemma UpperHalfIsOdd(a: nat, y: nat, k: nat)
    requires 1 <= y <= 32 && UpperHalf(a, y) && k >= 33 - y
    ensures !Aligned(a, k)
  {
    if Aligned(a, k) {
      AlignedSmaller(a, 33 - y, k);
      SizeHalves(y);
      AlignedApart(a - Size(y), a, 33 - y);
    }
  }

  /** Halving `[res, res + Size(z))` down to level `len` leaves one upper half of each level in between. */
  lemma {:induction false} LevelOf(res: nat, z: nat, len: nat, x: nat) returns (y: nat)
    requires z <= len <= 32 && res + Size(len) <= x < res + Size(z)
    ensures z < y <= len && res + Size(y) <= x < res + 2 * Size(y)
    decreases len
  {
    SizeHalves(len);
    if x < res + Size(len - 1) {
      y := len;
    } else {
      y := LevelOf(res, z, len - 1, x);
    }
  }

  // ---------------------------------------------------------------- Placing keeps the tiling

  lemma SplitFreeOk(available: seq<nat>, z: nat, len: nat)
    requires FreeOk(available) && 0 < z <= len < 32 && available[z] != 0
    requires forall i | z < i <= len :: available[i] == 0
    ensures FreeOk(Split(available, z, len))
  {
    var res, out := available[z], Split(available, z, len);
    UpperHalfAligned(res, z);
    forall y: nat | 1 <= y < 32 && out[y] != 0
      ensures UpperHalf(out[y], y) && out[y] + Size(y) <= WORD
    {
      if z < y <= len {
        SplitUpper(res, z, y);
        assert out[y] == res + Size(y);
      }
    }
    hide UpperHalf;
    forall y: nat, w: nat | 1 <= y < w < 32 && out[y] != 0 && out[w] != 0
      ensures out[w] + Size(w) <= out[y]
    {
      if z < w <= len {
        SizeHalves(w);
        SizeShrinks(z, w - 1);
        if y > z {
          SizeShrinks(y, w);
        }
      }
    }
  }

  /** A new free block is the upper half of what has been halved. */
  lemma SplitUpper(res: nat, z: nat, y: nat)
    requires 0 < z < y < 32 && Aligned(res, 32 - z) && res + Size(z) <= WORD
    ensures UpperHalf(res + Size(y), y) && res + Size(y) + Size(y) <= WORD
  {
    SizeHalves(y);
    SizeShrinks(z, y - 1);
    AlignedSmaller(res, 33 - y, 32 - z);
  }

  /** Which free blocks there are after a split. */
  lemma SplitInFree(available: seq<nat>, z: nat, len: nat, y: nat, x: nat)
    requires FreeOk(available) && 0 < z <= len < 32 && available[z] != 0
    requires InFree(Split(available, z, len), y, x)
    ensures z < y <= len ==> InFree(available, z, x) && x >= available[z] + Size(len)
    ensures !(z < y <= len) ==> y != z && InFree(available, y, x)
  {
    if z < y <= len {
      SizeHalves(y);
      SizeShrinks(z, y - 1);
      SizeShrinks(y, len);
    }
  }

  lemma FreeApart(available: seq<nat>, y: nat, z: nat, x: nat)
    requires FreeOk(available) && InFree(available, y, x) && InFree(available, z, x)
    ensures y == z
  {
  }

  lemma PlaceCovers(t: Tree, z: nat, leaf: Leaf, x: nat)
    requires Tiled(t) && x < WORD && 0 < z <= leaf.len < 32 && t.available[z] != 0 && leaf.addr == t.available[z]
    requires forall i | z < i <= leaf.len :: t.available[i] == 0
    ensures Covered(Tree(Split(t.available, z, leaf.len), t.leaves + [leaf]), x)
  {
    var t' := Tree(Split(t.available, z, leaf.len), t.leaves + [leaf]);
    assert Covered(t, x);
    if i :| 0 <= i < |t.leaves| && InLeaf(t.leaves[i], x) {
      assert InLeaf(t'.leaves[i], x);
    } else {
      var y :| InFree(t.available, y, x);
      if y == z {
        if x < leaf.addr + Size(leaf.len) {
          assert InLeaf(t'.leaves[|t.leaves|], x);
        } else {
          var w := LevelOf(leaf.addr, z, leaf.len, x);
          assert InFree(t'.available, w, x);
        }
      } else {
        assert InFree(t'.available, y, x);
      }
    }
  }

  /** The new tree, and what is known of the place it was made in. */
  ghost predicate PlacedAt(t: Tree, z: nat, leaf: Leaf, t': Tree) {
    && |t.available| == 32 && 0 < z <= leaf.len < 32 && t.available[z] != 0 && leaf.addr == t.available[z]
    && (forall i | z < i <= leaf.len :: t.available[i] == 0)
    && t' == Tree(Split(t.available, z, leaf.len), t.leaves + [leaf])
  }

  lemma PlaceApart(t: Tree, z: nat, leaf: Leaf, t': Tree)
    requires Tiled(t) && PlacedAt(t, z, leaf, t')
    ensures LeafOk(leaf)
    ensures forall i, y, x | 0 <= i < |t'.leaves| && InLeaf(t'.leaves[i], x) :: !InFree(t'.available, y, x)
    ensures forall i, j, x | 0 <= i < j < |t'.leaves| && InLeaf(t'.leaves[i], x) :: !InLeaf(t'.leaves[j], x)
  {
    var last := |t.leaves|;
    UpperHalfAligned(leaf.addr, z);
    AlignedSmaller(leaf.addr, 32 - leaf.len, 32 - z);
    SizeShrinks(z, leaf.len);
    assert forall x | InLeaf(leaf, x) :: InFree(t.available, z, x);
    forall i, y: nat, x: nat | 0 <= i < |t'.leaves| && InLeaf(t'.leaves[i], x)
      ensures !InFree(t'.available, y, x)
    {
      if InFree(t'.available, y, x) {
        SplitInFree(t.available, z, leaf.len, y, x);
        if i == last && !(z < y <= leaf.len) {
          FreeApart(t.available, y, z, x);
        }
      }
    }
  }

  lemma PlaceTiles(t: Tree, z: nat, leaf: Leaf, t': Tree)
    requires Tiled(t) && PlacedAt(t, z, leaf, t')
    ensures Tiled(t')
  {
    SplitFreeOk(t.available, z, leaf.len);
    PlaceApart(t, z, leaf, t');
    forall x: nat | x < WORD
      ensures Covered(t', x)
    {
      PlaceCovers(t, z, leaf, x);
    }
  }

  lemma FirstTiles(symbol: nat, len: nat)
    requires 1 <= len < 32
    ensures Tiled(FirstTree(symbol, len))
  {
    var t := FirstTree(symbol, len);
    forall y | 1 <= y <= len
      ensures UpperHalf(Size(y), y) && Size(y) + Size(y) <= WORD && Size(y) >= Size(len)
    {
      ZeroAligned(33 - y);
      SizeHalves(y);
      SizeShrinks(0, y - 1);
      SizeShrinks(y, len);
    }
    forall y, z | 1 <= y < z <= len
      ensures 2 * Size(z) <= Size(y)
    {
      SizeShrinks(y, z);
    }
    ZeroAligned(32 - len);
    SizeShrinks(0, len);
    forall x: nat | x < WORD
      ensures Covered(t, x)
    {
      if x < Size(len) {
        assert InLeaf(t.leaves[0], x);
      } else {
        var y := LevelOf(0, 0, len, x);
        assert InFree(t.available, y, x);
      }
    }
  }

  // ---------------------------------------------------------------- The lowest unused codeword

  /** No assigned block meets the block of size `Size(len)` at `a`. */
  ghost predicate Unused(leaves: seq<Leaf>, a: nat, len: nat)
    requires len <= 32
  {
    forall i, x: nat | 0 <= i < |leaves| && a <= x < a + Size(len) :: !InLeaf(leaves[i], x)
  }

  /** Section 3.2.1 of the Vorbis I specification: each entry gets the lowest unused codeword of its length. */
  lemma PlacesLowest(t: Tree, z: nat, leaf: Leaf, t': Tree, a: nat)
    requires Tiled(t) && PlacedAt(t, z, leaf, t')
    requires Aligned(a, 32 - leaf.len) && a + Size(leaf.len) <= WORD && Unused(t.leaves, a, leaf.len)
    ensures leaf.addr <= a
  {
    hide Aligned, Unused, Tiled, Split, Size;
    var y := UnusedIsFree(t, leaf.len, a);
    FreeBlockOfAligned(t.available, y, leaf.len, a);
  }

  lemma UnusedIsFree(t: Tree, len: nat, a: nat) returns (y: nat)
    requires Tiled(t) && len <= 32 && a + Size(len) <= WORD && Unused(t.leaves, a, len)
    ensures FreeOk(t.available) && InFree(t.available, y, a)
  {
    hide FreeOk;
    assert Covered(t, a);
    assert forall i | 0 <= i < |t.leaves| :: !InLeaf(t.leaves[i], a);
    var z :| InFree(t.available, z, a);
    y := z;
  }

  lemma PlacesUnused(t: Tree, z: nat, leaf: Leaf, t': Tree)
    requires Tiled(t) && PlacedAt(t, z, leaf, t')
    ensures Unused(t.leaves, leaf.addr, leaf.len)
  {
    SizeShrinks(z, leaf.len);
    forall i, x: nat | 0 <= i < |t.leaves| && leaf.addr <= x < leaf.addr + Size(leaf.len)
      ensures !InLeaf(t.leaves[i], x)
    {
      assert InFree(t.available, z, x);
    }
  }

  /** An aligned block cannot begin inside a free block smaller than itself. */
  lemma FreeBlockOfAligned(available: seq<nat>, y: nat, len: nat, a: nat)
    requires FreeOk(available) && InFree(available, y, a) && 1 <= len < 32 && Aligned(a, 32 - len)
    ensures y <= len
  {
    if y > len {
      var b := available[y];
      UpperHalfAligned(b, y);
      AlignedSmaller(a, 32 - y, 32 - len);
      if b < a {
        AlignedApart(b, a, 32 - y);
      }
      UpperHalfIsOdd(b, y, 32 - len);
    }
  }

  // ---------------------------------------------------------------- The Kraft sum

  function LeafSum(leaves: seq<Leaf>): nat
    requires forall i | 0 <= i < |leaves| :: leaves[i].len <= 32
  {
    if leaves == [] then 0 else LeafSum(leaves[..|leaves| - 1]) + Size(leaves[|leaves| - 1].len)
  }

  /** The free space on the levels below `k`. */
  function FreeSum(available: seq<nat>, k: nat): nat
    requires |available| == 32 && k <= 32
  {
    if k == 0 then 0 else FreeSum(available, k - 1) + if available[k - 1] != 0 then Size(k - 1) else 0
  }

  /** The space that the first `k` entries ask for, in units of the smallest block: 2^32 times the sum of 2^-len. */
  function KraftSum(lens: seq<nat>, k: nat): nat
    requires LengthsOk(lens) && k <= |lens|
  {
    if k == 0 then 0 else KraftSum(lens, k - 1) + if lens[k - 1] == NO_CODE then 0 else Size(lens[k - 1])
  }

  lemma {:induction false} SplitSum(available: seq<nat>, z: nat, len: nat, k: nat)
    requires |available| == 32 && available[0] == 0 && 0 < z <= len < 32 && available[z] != 0 && k <= 32
    requires forall i | z < i <= len :: available[i] == 0
    ensures FreeSum(available, k) == FreeSum(Split(available, z, len), k)
              + if k <= z then 0 else if k <= len then Size(k - 1) else Size(len)
  {
    if k > 0 {
      SplitSum(available, z, len, k - 1);
      if z < k - 1 <= len {
        SizeHalves(k - 1);
      }
    }
  }

  lemma {:induction false} FirstSum(symbol: nat, len: nat, k: nat)
    requires 1 <= len < 32 && k <= 32
    ensures FreeSum(FirstTree(symbol, len).available, k)
         == if k <= 1 then 0 else if k <= len then WORD - Size(k - 1) else WORD - Size(len)
  {
    if k > 1 {
      FirstSum(symbol, len, k - 1);
      if k - 1 <= len {
        SizeHalves(k - 1);
      }
    } else if k == 1 {
      FirstSum(symbol, len, 0);
    }
  }

  lemma {:induction false} FullSum(available: seq<nat>, len: nat, k: nat)
    requires |available| == 32 && available[0] == 0 && len < k <= 32 && forall i | 0 < i <= len :: available[i] == 0
    ensures FreeSum(available, k) <= Size(len) - Size(k - 1)
    decreases k
  {
    if k - 1 == len {
      EmptySum(available, k);
    } else {
      FullSum(available, len, k - 1);
      SizeHalves(k - 1);
    }
  }

  lemma {:induction false} EmptySum(available: seq<nat>, k: nat)
    requires |available| == 32 && k <= 32 && forall i | 0 <= i < k :: available[i] == 0
    ensures FreeSum(available, k) == 0
  {
    if k > 0 {
      EmptySum(available, k - 1);
    }
  }

  // ---------------------------------------------------------------- All entries

  /** Space is conserved. */
  ghost predicate Conserved(t: Tree) {
    && |t.available| == 32 && (forall i | 0 <= i < |t.leaves| :: t.leaves[i].len <= 32)
    && LeafSum(t.leaves) + FreeSum(t.available, 32) == WORD
  }

  lemma PlaceConserves(t: Tree, z: nat, leaf: Leaf, t': Tree)
    requires Tiled(t) && Conserved(t) && PlacedAt(t, z, leaf, t')
    ensures Conserved(t') && LeafSum(t'.leaves) == LeafSum(t.leaves) + Size(leaf.len)
  {
    SplitSum(t.available, z, leaf.len, 32);
    assert t'.leaves[..|t'.leaves| - 1] == t.leaves;
  }

  lemma AssignFirst(lens: seq<nat>, k: nat)
    requires LengthsOk(lens) && 0 < k <= |lens| && lens[k - 1] != NO_CODE
    requires Assign(lens, k - 1).NotStarted? && KraftSum(lens, k - 1) == 0
    ensures Assign(lens, k).Built? && Tiled(Assign(lens, k).tree) && Conserved(Assign(lens, k).tree)
    ensures LeafSum(Assign(lens, k).tree.leaves) == KraftSum(lens, k)
  {
    hide Tiled, Size, LeafSum, FreeSum;
    FirstTiles(k - 1, lens[k - 1]);
    FirstSum(k - 1, lens[k - 1], 32);
    FirstLeafSum(k - 1, lens[k - 1]);
  }

  lemma TiledIsFree(t: Tree)
    requires Tiled(t)
    ensures |t.available| == 32 && t.available[0] == 0
  {
  }

  lemma AssignNext(lens: seq<nat>, k: nat)
    requires LengthsOk(lens) && 0 < k <= |lens| && lens[k - 1] != NO_CODE && Assign(lens, k - 1).Built?
    requires Tiled(Assign(lens, k - 1).tree) && Conserved(Assign(lens, k - 1).tree)
    requires LeafSum(Assign(lens, k - 1).tree.leaves) == KraftSum(lens, k - 1)
    ensures !Assign(lens, k).NotStarted?
    ensures Assign(lens, k).Built? ==> Tiled(Assign(lens, k).tree) && Conserved(Assign(lens, k).tree)
    ensures Assign(lens, k).Built? ==> LeafSum(Assign(lens, k).tree.leaves) == KraftSum(lens, k)
    ensures Assign(lens, k).Overfull? ==> KraftSum(lens, k) > WORD
  {
    hide Tiled, Size, LeafSum, FreeSum, Split;
    var t, len := Assign(lens, k - 1).tree, lens[k - 1];
    TiledIsFree(t);
    var z := Deepest(t.available, len);
    if z == 0 {
      FullSum(t.available, len, 32);
    } else {
      var leaf := Leaf(k - 1, t.available[z], len);
      PlaceTiles(t, z, leaf, Assign(lens, k).tree);
      PlaceConserves(t, z, leaf, Assign(lens, k).tree);
    }
  }

  /** At every step the blocks tile the space and account for the Kraft sum of the entries so far. */
  lemma {:induction false} AssignTiles(lens: seq<nat>, k: nat)
    requires LengthsOk(lens) && k <= |lens|
    ensures Assign(lens, k).NotStarted? ==> KraftSum(lens, k) == 0
    ensures Assign(lens, k).Built? ==> Tiled(Assign(lens, k).tree)
    ensures Assign(lens, k).Built? ==> Conserved(Assign(lens, k).tree)
    ensures Assign(lens, k).Built? ==> LeafSum(Assign(lens, k).tree.leaves) == KraftSum(lens, k)
    ensures Assign(lens, k).Overfull? ==> KraftSum(lens, k) > WORD
  {
    hide Tiled, Conserved, Size, LeafSum, Place;
    if k > 0 {
      AssignTiles(lens, k - 1);
      var before := Assign(lens, k - 1);
      if before.NotStarted? && lens[k - 1] != NO_CODE {
        AssignFirst(lens, k);
      } else if before.Built? && lens[k - 1] != NO_CODE {
        AssignNext(lens, k);
      }
    }
  }

  lemma FirstLeafSum(symbol: nat, len: nat)
    requires 1 <= len < 32
    ensures LeafSum(FirstTree(symbol, len).leaves) == Size(len)
  {
    var leaves := FirstTree(symbol, len).leaves;
    assert leaves[..|leaves| - 1] == [] && LeafSum([]) == 0;
  }

  /** Assignment fails exactly when the lengths ask for more than the whole space. */
  lemma FailsIffOverfull(lens: seq<nat>)
    requires LengthsOk(lens)
    ensures Assign(lens, |lens|).Overfull? <==> KraftSum(lens, |lens|) > WORD
  {
    AssignTiles(lens, |lens|);
  }
}
