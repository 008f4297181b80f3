/** The self-attention key/value cache shared by all decoders (whisper_kv_cache): cells tagged with a position
and the set of sequences they belong to.

`contents[i][l]` is the hidden vector from which the key and the value of cell `i` in layer `l` were last computed. */
module KvCache {

  const INT_MAX := 0x7FFF_FFFF

  datatype Cell = Cell(pos: int, seqIds: set<int>)

  /** One token of a batch; a batch row has exactly one sequence. */
  datatype Row = Row(token: int, pos: int, seqId: int)

  /** The hidden vector of a token by what it was computed from: the token's embedding, or the output of a layer,
      from the token's own vector below and the vectors below whose keys and values attention saw. */
  datatype Hidden = Blank | Embedded(token: int, pos: int) | Layered(own: Hidden, seen: set<Hidden>)

  /** The evaluation of a batch placed at `head`: the cells then, the columns as they were before, and the window. */
  datatype Pass = Pass(cells: seq<Cell>, contents: seq<seq<Hidden>>, n: nat, head: nat, batch: seq<Row>)

  predicate CellOk(cell: Cell) {
    -1 <= cell.pos < INT_MAX && (cell.pos >= 0 <==> cell.seqIds != {})
  }

  // ---------------------------------------------------------------- Free runs

  /** `n` free cells in a row, from `s` on. */
  predicate FreeRun(cells: seq<Cell>, s: int, n: nat) {
    0 <= s && s + n <= |cells| && forall i | s <= i < s + n :: cells[i].pos < 0
  }

  /** No free run of `n` cells starts in `[from, to)`. */
  ghost predicate NoFreeRun(cells: seq<Cell>, from: int, to: int, n: nat) {
    forall s | from <= s < to :: !FreeRun(cells, s, n)
  }

  ghost predicate HasFreeRun(cells: seq<Cell>, n: nat) {
    exists s :: FreeRun(cells, s, n)
  }

  function PlacedCell(cells: seq<Cell>, head: nat, batch: seq<Row>, i: nat): Cell
    requires i < |cells|
  {
    if head <= i < head + |batch| then Cell(batch[i - head].pos, cells[i].seqIds + {batch[i - head].seqId})
      else cells[i]
  }

  function Placed(cells: seq<Cell>, head: nat, batch: seq<Row>): (out: seq<Cell>)
    ensures |out| == |cells|
  {
    seq(|cells|, i requires 0 <= i < |cells| => PlacedCell(cells, head, batch, i))
  }

  // ---------------------------------------------------------------- Removing and copying sequences

  /** Whether a cell is taken off by `seq_rm`: the id is negative, which means all, or the cell carries it. */
  predicate RemoveHits(cell: Cell, id: int, p0: int, p1: int) {
    p0 <= cell.pos < p1 && (id < 0 || id in cell.seqIds)
  }

  function RemovedCell(cell: Cell, id: int, p0: int, p1: int): Cell {
    if RemoveHits(cell, id, p0, p1) then
      var ids := if id < 0 then {} else cell.seqIds - {id};
      Cell(if ids == {} then -1 else cell.pos, ids)
    else cell
  }

  /** Cell `i` is left without sequences by `seq_rm`. */
  predicate Freed(cells: seq<Cell>, i: int, id: int, p0: int, p1: int) {
    0 <= i < |cells| && RemoveHits(cells[i], id, p0, p1) && RemovedCell(cells[i], id, p0, p1).seqIds == {}
  }

  function CopiedCell(cell: Cell, src: int, dst: int, p0: int, p1: int): Cell {
    if src in cell.seqIds && p0 <= cell.pos < p1 then cell.(seqIds := cell.seqIds + {dst}) else cell
  }

  function Removed(cells: seq<Cell>, id: int, p0: int, p1: int): (out: seq<Cell>)
    ensures |out| == |cells|
  {
    seq(|cells|, i requires 0 <= i < |cells| => RemovedCell(cells[i], id, p0, p1))
  }

  function Copied(cells: seq<Cell>, src: int, dst: int, p0: int, p1: int): (out: seq<Cell>)
    ensures |out| == |cells|
  {
    seq(|cells|, i requires 0 <= i < |cells| => CopiedCell(cells[i], src, dst, p0, p1))
  }

  /** A negative bound stands for the first or for the last position. */
  function LowBound(p0: int): int { if p0 < 0 then 0 else p0 }

  function HighBound(p1: int): int { if p1 < 0 then INT_MAX else p1 }

  // ---------------------------------------------------------------- Padding

  /** Rounds `x` up to a multiple of `n`. */
  function Pad(x: nat, n: nat): nat
    requires n > 0
  {
    (x + n - 1) / n * n
  }

  lemma PadIsNotLess(x: nat, n: nat)
    requires n > 0
    ensures Pad(x, n) >= x
  {
    var q, r := (x + n - 1) / n, (x + n - 1) % n;
    assert x + n - 1 == q * n + r;
  }

  function Min(a: int, b: int): int { if a < b then a else b }

  function Max(a: int, b: int): int { if a > b then a else b }

  /** A row attends to the cells of its sequence up to its own position. */
  predicate Attends(row: Row, cell: Cell) {
    row.seqId in cell.seqIds && cell.pos <= row.pos
  }

  // ---------------------------------------------------------------- Evaluating a batch

  predicate PassOk(e: Pass) {
    e.head + |e.batch| <= |e.cells| == |e.contents| && e.n <= |e.cells|
  }

  /** The vector of row `r` that enters layer `l`. */
  function HiddenOf(e: Pass, r: nat, l: nat): Hidden
    requires PassOk(e) && r < |e.batch|
    decreases l, 0
  {
    if l == 0 then Embedded(e.batch[r].token, e.batch[r].pos)
    else Layered(HiddenOf(e, r, l - 1), Seen(e, r, l - 1))
  }

  /** The vectors of layer `l` that row `r` attends to. */
  function Seen(e: Pass, r: nat, l: nat): set<Hidden>
    requires PassOk(e) && r < |e.batch|
    decreases l, 2
  {
    set i: nat | i < e.n && Attends(e.batch[r], e.cells[i]) :: ColumnOf(e, i, l)
  }

  /** What cell `i` holds for layer `l` when attention looks at it. */
  function ColumnOf(e: Pass, i: nat, l: nat): Hidden
    requires PassOk(e) && i < |e.cells|
    decreases l, 1
  {
    if e.head <= i < e.head + |e.batch| then HiddenOf(e, i - e.head, l)
    else if l < |e.contents[i]| then e.contents[i][l] else Blank
  }

  /** The columns after the layers below `l` have been evaluated. */
  ghost predicate StoredTo(e: Pass, after: seq<seq<Hidden>>, l: nat)
    requires PassOk(e)
  {
    && |after| == |e.contents|
    && (forall i | 0 <= i < |after| :: |after[i]| == |e.contents[i]|)
    && (forall i | 0 <= i < |after| && !(e.head <= i < e.head + |e.batch|) :: after[i] == e.contents[i])
    && (forall r, k: nat | 0 <= r < |e.batch| && k < l && k < |after[e.head + r]| ::
      after[e.head + r][k] == HiddenOf(e, r, k))
  }

  /** The vectors of all rows that enter layer `l`. */
  ghost predicate AreHidden(e: Pass, cur: seq<Hidden>, l: nat)
    requires PassOk(e)
  {
    |cur| == |e.batch| && forall r | 0 <= r < |cur| :: cur[r] == HiddenOf(e, r, l)
  }

  /** The columns of layer `l` are those that attention is to see once the rows' own are stored. */
  lemma ColumnIsStored(e: Pass, after: seq<seq<Hidden>>, i: nat, l: nat)
    requires PassOk(e) && StoredTo(e, after, l + 1) && i < |after| && l < |after[i]|
    ensures after[i][l] == ColumnOf(e, i, l)
  {
    hide HiddenOf;
    if e.head <= i < e.head + |e.batch| {
      assert after[e.head + (i - e.head)][l] == HiddenOf(e, i - e.head, l);
    }
  }

  class KvCache {
    var head: nat
    var n: nat
    var cells: seq<Cell>
    const layers: nat
    var contents: seq<seq<Hidden>>

    ghost predicate Valid()
      reads this
    {
      && |cells| > 0 && |contents| == |cells| && head <= |cells|
      && (forall i | 0 <= i < |contents| :: |contents[i]| == layers)
      && forall i | 0 <= i < |cells| :: CellOk(cells[i])
    }

    constructor (size: nat, layers: nat)
      requires size > 0
      ensures Valid() && |cells| == size && head == 0 && this.layers == layers
      ensures forall i | 0 <= i < size :: cells[i] == Cell(-1, {})
    {
      head, n, this.layers := 0, 0, layers;
      cells := seq(size, _ => Cell(-1, {}));
      contents := seq(size, _ => seq(layers, _ => Blank));
    }

    /** Searches for a run of free cells, starting at `head` and wrapping around, and puts the batch there. */
    method FindSlot(batch: seq<Row>) returns (ok: bool)
      requires Valid() && forall i | 0 <= i < |batch| :: 0 <= batch[i].pos < INT_MAX
      modifies this`head, this`cells
      ensures Valid() && |cells| == |old(cells)|
      ensures ok <==> HasFreeRun(old(cells), |batch|)
      ensures ok ==> FreeRun(old(cells), head, |batch|) && cells == Placed(old(cells), head, batch)
      ensures !ok ==> cells == old(cells)
    {
      var nCtx, nTokens := |cells|, |batch|;
      if nTokens > nCtx {
        return false;
      }
      ok := SearchSlot(nTokens);
      if ok {
        ghost var before, run := cells, head;
        var i := 0;
        while i < nTokens
          invariant i <= nTokens && |cells| == nCtx && head == run
          invariant cells == Placed(before, head, batch[..i])
        {
          cells := cells[head + i := Cell(batch[i].pos, cells[head + i].seqIds + {batch[i].seqId})];
          i := i + 1;
        }
        assert batch[..nTokens] == batch;
      }
    }

    /** The search loop: `head` ends at the run. */
    method SearchSlot(nTokens: nat) returns (ok: bool)
      requires Valid() && nTokens <= |cells|
      modifies this`head
      ensures Valid() && (ok <==> HasFreeRun(cells, nTokens))
      ensures ok ==> FreeRun(cells, head, nTokens)
    {
      var nCtx, nTested := |cells|, 0;
      ghost var start, wraps := head, 0;
      while true
        invariant head <= nCtx && wraps <= 2
        invariant NoFreeRun(cells, if wraps == 0 then start else 0, head, nTokens)
        invariant wraps == 0 ==> head == start + nTested
        invariant wraps == 1 ==> nTested == nCtx - start + head && NoFreeRun(cells, start, nCtx + 1, nTokens)
        invariant wraps == 2 ==> nTested >= nCtx && head == 0 && NoFreeRun(cells, 0, nCtx + 1, nTokens)
        decreases 2 - wraps, nCtx - head
      {
        if head + nTokens > nCtx {
          nTested := nTested + (nCtx - head);
          assert NoFreeRun(cells, head, nCtx + 1, nTokens);
          head := 0;
          wraps := wraps + 1;
          continue;
        }
        var found, i := true, 0;
        ghost var run := head;
        while i < nTokens && found
          invariant head == run
          invariant i <= nTokens && (found ==> forall k | head <= k < head + i :: cells[k].pos < 0)
          invariant !found ==> i < nTokens && cells[head + i].pos >= 0
          decreases nTokens - i, found
        {
          if cells[head + i].pos >= 0 {
            found := false;
          } else {
            i := i + 1;
          }
        }
        if found {
          assert FreeRun(cells, head, nTokens);
          return true;
        }
        OccupiedBlocks(cells, head, i, nTokens);
        head := head + i + 1;
        nTested := nTested + i + 1;
        if nTested >= nCtx {
          NoRunAnywhere(cells, start, head, wraps, nTested, nTokens);
          return false;
        }
      }
      ok := false;
    }

    /** Evaluates a batch: finds its slot, fixes the window of cells that attention looks at, builds the mask (true
        where attention is cut off), and runs the layers, which store the columns of the batch at the slot. */
    method Decode(batch: seq<Row>, pad: nat) returns (ok: bool, mask: array2<bool>, outputs: seq<Hidden>)
      requires Valid() && pad > 0 && forall i | 0 <= i < |batch| :: 0 <= batch[i].pos < INT_MAX
      modifies this
      ensures Valid() && |cells| == |old(cells)| && fresh(mask)
      ensures ok <==> HasFreeRun(old(cells), |batch|)
      ensures !ok ==> cells == old(cells) && contents == old(contents)
      ensures ok ==> FreeRun(old(cells), head, |batch|) && cells == Placed(old(cells), head, batch)
      ensures ok ==> n <= |cells| && forall i | n <= i < |cells| :: cells[i].seqIds == {}
      ensures ok ==> mask.Length0 == |batch| && mask.Length1 == n
      ensures ok ==> forall j, i | 0 <= j < |batch| && 0 <= i < n :: mask[j, i] <==> !Attends(batch[j], cells[i])
      ensures ok ==> var e := Pass(cells, old(contents), n, head, batch);
        PassOk(e) && StoredTo(e, contents, layers) && AreHidden(e, outputs, layers)
    {
      hide HiddenOf, Attends, StoredTo, AreHidden, Placed;
      outputs := [];
      ok := FindSlot(batch);
      if !ok {
        mask := new bool[0, 0];
        return;
      }
      var max := CellMax();
      PadIsNotLess(max, pad);
      n := Min(|cells|, Max(pad, Pad(max, pad)));
      mask := BuildMask(batch);
      outputs := RunLayers(batch, mask);
    }

    /** The layers of the decoder: each stores the columns of the batch and then attends to the columns that the
        mask leaves. */
    method RunLayers(batch: seq<Row>, mask: array2<bool>) returns (cur: seq<Hidden>)
      requires Valid() && head + |batch| <= |cells| && n <= |cells|
      requires mask.Length0 == |batch| && mask.Length1 == n
      requires forall j, i | 0 <= j < |batch| && 0 <= i < n :: mask[j, i] <==> !Attends(batch[j], cells[i])
      modifies this`contents
      ensures Valid()
      ensures var e := Pass(cells, old(contents), n, head, batch);
        StoredTo(e, contents, layers) && AreHidden(e, cur, layers)
    {
      hide Attends, StoredTo, HiddenOf, ColumnSet;
      ghost var e := Pass(cells, contents, n, head, batch);
      cur := seq(|batch|, r requires 0 <= r < |batch| => Embedded(batch[r].token, batch[r].pos));
      FirstVectors(e, cur);
      for il := 0 to layers
        invariant Valid() && StoredTo(e, contents, il) && AreHidden(e, cur, il)
      {
        ghost var before := contents;
        StoreColumns(cur, il);
        ColumnsAreStored(e, before, contents, cur, il);
        cur := Attend(batch, cur, il, mask, e);
      }
    }

    /** The keys and values of a layer go to the slot of the batch. */
    method StoreColumns(cur: seq<Hidden>, il: nat)
      requires Valid() && head + |cur| <= |cells| && il < layers
      modifies this`contents
      ensures Valid()
      ensures forall i | 0 <= i < |contents| && !(head <= i < head + |cur|) :: contents[i] == old(contents)[i]
      ensures |contents| == |old(contents)| &&
        forall r | 0 <= r < |cur| :: ColumnSet(old(contents), contents, head + r, il, cur[r])
    {
      for r := 0 to |cur|
        invariant Valid()
        invariant forall i | 0 <= i < |contents| && !(head <= i < head + r) :: contents[i] == old(contents)[i]
        invariant forall k | 0 <= k < r :: ColumnSet(old(contents), contents, head + k, il, cur[k])
      {
        contents := contents[head + r := contents[head + r][il := cur[r]]];
      }
    }

    /** Attention and the rest of a layer. */
    method Attend(batch: seq<Row>, cur: seq<Hidden>, il: nat, mask: array2<bool>, ghost e: Pass)
      returns (out: seq<Hidden>)
      requires Valid() && il < layers && PassOk(e) && e.cells == cells && e.n == n && e.batch == batch
      requires StoredTo(e, contents, il + 1) && AreHidden(e, cur, il)
      requires mask.Length0 == |batch| && mask.Length1 == n
      requires forall j, i | 0 <= j < |batch| && 0 <= i < n :: mask[j, i] <==> !Attends(batch[j], cells[i])
      ensures AreHidden(e, out, il + 1)
    {
      hide Attends, StoredTo, ColumnOf;
      out := [];
      for r := 0 to |batch|
        invariant |out| == r && forall k | 0 <= k < r :: out[k] == HiddenOf(e, k, il + 1)
      {
        var seen := set i: nat | i < n && !mask[r, i] :: contents[i][il];
        forall i: nat | i < n
          ensures contents[i][il] == ColumnOf(e, i, il)
        {
          ColumnIsStored(e, contents, i, il);
        }
        assert seen == Seen(e, r, il);
        out := out + [Layered(cur[r], seen)];
      }
    }

    method BuildMask(batch: seq<Row>) returns (mask: array2<bool>)
      requires Valid() && n <= |cells|
      ensures fresh(mask) && mask.Length0 == |batch| && mask.Length1 == n
      ensures forall j, i | 0 <= j < |batch| && 0 <= i < n :: mask[j, i] <==> !Attends(batch[j], cells[i])
    {
      mask := new bool[|batch|, n];
      for j := 0 to |batch|
        invariant forall r, i | 0 <= r < j && 0 <= i < n :: mask[r, i] <==> !Attends(batch[r], cells[i])
      {
        for i := 0 to n
          invariant forall r, k | 0 <= r < j && 0 <= k < n :: mask[r, k] <==> !Attends(batch[r], cells[k])
          invariant forall k | 0 <= k < i :: mask[j, k] <==> !Attends(batch[j], cells[k])
        {
          mask[j, i] := batch[j].seqId !in cells[i].seqIds || cells[i].pos > batch[j].pos;
        }
      }
    }

    /** One more than the last cell in use, or 1. */
    method CellMax() returns (max: nat)
      requires Valid()
      ensures 1 <= max <= |cells|
      ensures forall i | max <= i < |cells| :: cells[i].seqIds == {}
      ensures max > 1 ==> cells[max - 1].seqIds != {}
    {
      var i := |cells| - 1;
      while i > 0
        invariant 0 <= i < |cells|
        invariant forall k | i < k < |cells| :: cells[k].seqIds == {}
      {
        if cells[i].pos >= 0 && cells[i].seqIds != {} {
          return i + 1;
        }
        i := i - 1;
      }
      max := 1;
    }

    /** Frees every cell. */
    method Clear()
      requires Valid()
      modifies this`head, this`cells
      ensures Valid() && head == 0 && |cells| == |old(cells)|
      ensures forall i | 0 <= i < |cells| :: cells[i] == Cell(-1, {})
    {
      var i := 0;
      while i < |cells|
        invariant i <= |cells| == |old(cells)|
        invariant forall k | 0 <= k < i :: cells[k] == Cell(-1, {})
      {
        cells := cells[i := Cell(-1, {})];
        i := i + 1;
      }
      head := 0;
    }

    /** Takes a sequence off the cells with positions in [p0, p1); a cell that no sequence is left on is freed. */
    method SeqRm(seqId: int, p0: int, p1: int)
      requires Valid()
      modifies this`head, this`cells
      ensures Valid() && cells == Removed(old(cells), seqId, LowBound(p0), HighBound(p1))
      ensures if exists i :: Freed(old(cells), i, seqId, LowBound(p0), HighBound(p1))
              then Freed(old(cells), head, seqId, LowBound(p0), HighBound(p1))
                   && forall i | 0 <= i < head :: !Freed(old(cells), i, seqId, LowBound(p0), HighBound(p1))
              else head == old(head)
    {
      ghost var before, top := cells, head;
      var newHead: nat, low, high := |cells|, LowBound(p0), HighBound(p1);
      var i := 0;
      while i < |cells|
        invariant i <= |cells| == |before| && newHead <= |cells| && head == top
        invariant forall k | 0 <= k < i :: cells[k] == RemovedCell(before[k], seqId, low, high)
        invariant forall k | i <= k < |cells| :: cells[k] == before[k]
        invariant forall k | 0 <= k < i && k < newHead :: !Freed(before, k, seqId, low, high)
        invariant newHead < |cells| ==> newHead < i && Freed(before, newHead, seqId, low, high)
      {
        if RemoveHits(cells[i], seqId, low, high) {
          cells := cells[i := cells[i].(seqIds := if seqId < 0 then {} else cells[i].seqIds - {seqId})];
          if cells[i].seqIds == {} {
            cells := cells[i := cells[i].(pos := -1)];
            if newHead == |cells| {
              newHead := i;
            }
          }
        }
        i := i + 1;
      }
      if newHead != |cells| {
        head := newHead;
      }
    }

    /** Adds the sequence `dst` to the cells of `src` with positions in [p0, p1). */
    method SeqCp(src: int, dst: int, p0: int, p1: int)
      requires Valid()
      modifies this`head, this`cells
      ensures Valid() && head == 0 && cells == Copied(old(cells), src, dst, LowBound(p0), HighBound(p1))
    {
      ghost var before := cells;
      var low, high := LowBound(p0), HighBound(p1);
      head := 0;
      var i := 0;
      while i < |cells|
        invariant i <= |cells| == |before| && head == 0
        invariant forall k | 0 <= k < i :: cells[k] == CopiedCell(before[k], src, dst, low, high)
        invariant forall k | i <= k < |cells| :: cells[k] == before[k]
      {
        if src in cells[i].seqIds && low <= cells[i].pos < high {
          cells := cells[i := cells[i].(seqIds := cells[i].seqIds + {dst})];
        }
        i := i + 1;
      }
    }
  }

  lemma FirstVectors(e: Pass, cur: seq<Hidden>)
    requires PassOk(e) && |cur| == |e.batch| &&
      forall r | 0 <= r < |cur| :: cur[r] == Embedded(e.batch[r].token, e.batch[r].pos)
    ensures AreHidden(e, cur, 0) && StoredTo(e, e.contents, 0)
  {
  }

  /** Cell `i` has got the column `h` of layer `l` and is otherwise as before. */
  predicate ColumnSet(before: seq<seq<Hidden>>, after: seq<seq<Hidden>>, i: int, l: nat, h: Hidden) {
    0 <= i < |before| && i < |after| && l < |before[i]| && after[i] == before[i][l := h]
  }

  lemma ColumnsAreStored(e: Pass, before: seq<seq<Hidden>>, after: seq<seq<Hidden>>, cur: seq<Hidden>, l: nat)
    requires PassOk(e) && StoredTo(e, before, l) && AreHidden(e, cur, l) && |after| == |before|
    requires forall r | 0 <= r < |cur| :: ColumnSet(before, after, e.head + r, l, cur[r])
    requires forall i | 0 <= i < |after| && !(e.head <= i < e.head + |cur|) :: after[i] == before[i]
    ensures StoredTo(e, after, l + 1)
  {
    hide HiddenOf;
    forall i | 0 <= i < |after|
      ensures |after[i]| == |e.contents[i]|
    {
      assert |before[i]| == |e.contents[i]|;
      if e.head <= i < e.head + |cur| {
        assert ColumnSet(before, after, e.head + (i - e.head), l, cur[i - e.head]);
      }
    }
    forall r, k: nat | 0 <= r < |e.batch| && k < l + 1 && k < |after[e.head + r]|
      ensures after[e.head + r][k] == HiddenOf(e, r, k)
    {
      assert ColumnSet(before, after, e.head + r, l, cur[r]);
      assert k < l ==> before[e.head + r][k] == HiddenOf(e, r, k);
    }
  }

  lemma OccupiedBlocks(cells: seq<Cell>, head: nat, i: nat, n: nat)
    requires head + n <= |cells| && i < n && cells[head + i].pos >= 0
    ensures NoFreeRun(cells, head, head + i + 1, n)
  {
    forall s | head <= s < head + i + 1
      ensures !FreeRun(cells, s, n)
    {
      if s + n <= |cells| {
        assert s <= head + i < s + n;
      }
    }
  }

  lemma NoRunAnywhere(cells: seq<Cell>, start: nat, head: nat, wraps: nat, nTested: nat, n: nat)
    requires head <= |cells| && start <= |cells| && nTested >= |cells| && n > 0
    requires NoFreeRun(cells, if wraps == 0 then start else 0, head, n)
    requires wraps == 0 ==> head == start + nTested
    requires wraps == 1 ==> nTested == |cells| - start + head && NoFreeRun(cells, start, |cells| + 1, n)
    requires wraps >= 2 ==> NoFreeRun(cells, 0, |cells| + 1, n)
    ensures !exists s :: FreeRun(cells, s, n)
  {
    forall s
      ensures !FreeRun(cells, s, n)
    {
    }
  }
}
