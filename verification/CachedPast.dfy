/** What the key/value cache holds for a sequence (whisper_build_graph_decoder with the cache of whisper.cpp).

A sequence's cells hold a list of tokens if their columns are those that evaluating the list on its own gives. Rows of a
batch then come out as if each sequence were evaluated on its own, whatever else is in the cache. */
module CachedPast {
  import opened KvCache

  // ---------------------------------------------------------------- A list evaluated on its own

  /** The vector entering layer `l` at position `p` when the list is evaluated on its own. */
  function Alone(list: seq<int>, p: nat, l: nat): Hidden
    requires p < |list|
    decreases l, 0
  {
    if l == 0 then Embedded(list[p], p) else Layered(Alone(list, p, l - 1), SeenAlone(list, p, l - 1))
  }

  /** Each position sees those up to itself. */
  function SeenAlone(list: seq<int>, p: nat, l: nat): set<Hidden>
    requires p < |list|
    decreases l, 1
  {
    set q: nat | q <= p :: Alone(list, q, l)
  }

  lemma SeenAt(list: seq<int>, p: nat, l: nat, h: Hidden) returns (q: nat)
    requires p < |list| && h in SeenAlone(list, p, l)
    ensures q <= p && h == Alone(list, q, l)
  {
    q :| q <= p && h == Alone(list, q, l);
  }

  /** What comes later in the list has no effect. */
  lemma {:induction false} AloneIsCausal(list: seq<int>, more: seq<int>, p: nat, l: nat)
    requires p < |list| <= |more| && more[..|list|] == list
    ensures Alone(more, p, l) == Alone(list, p, l)
    decreases l
  {
    if l == 0 {
      assert more[p] == more[..|list|][p];
    } else {
      var below := l - 1;
      forall q: nat {:trigger Alone(more, q, below)} {:trigger Alone(list, q, below)} | q <= p
        ensures Alone(more, q, below) == Alone(list, q, below)
      {
        AloneIsCausal(list, more, q, below);
      }
      assert SeenAlone(more, p, below) == SeenAlone(list, p, below);
    }
  }

  /** The columns of position `p` of the list. */
  ghost predicate IsPast(column: seq<Hidden>, list: seq<int>, p: int) {
    0 <= p < |list| && forall l: nat | l < |column| :: column[l] == Alone(list, p, l)
  }

  lemma PastIsCausal(column: seq<Hidden>, list: seq<int>, more: seq<int>, p: nat)
    requires p < |list| <= |more| && more[..|list|] == list
    ensures IsPast(column, list, p) <==> IsPast(column, more, p)
  {
    hide Alone;
    forall l: nat | l < |column|
      ensures Alone(more, p, l) == Alone(list, p, l)
    {
      AloneIsCausal(list, more, p, l);
    }
  }

  // ---------------------------------------------------------------- The simple model: a token list per sequence

  /** Cells carry ids of decoders only; temporary ids are unused. */
  predicate NoTemporaryIds(cells: seq<Cell>, n: nat) {
    forall c | 0 <= c < |cells| :: CellOk(cells[c]) && forall id | id in cells[c].seqIds :: 0 <= id < n
  }

  predicate HeldAt(cells: seq<Cell>, c: int, id: int, p: int) {
    0 <= c < |cells| && id in cells[c].seqIds && cells[c].pos == p
  }

  ghost predicate Somewhere(cells: seq<Cell>, id: int, p: int) {
    exists c :: HeldAt(cells, c, id, p)
  }

  /** The sequence has one cell for each of the first `len` positions. */
  ghost predicate OnePerPosition(cells: seq<Cell>, id: int, len: nat) {
    && (forall c | 0 <= c < |cells| && id in cells[c].seqIds :: 0 <= cells[c].pos < len)
    && (forall p | 0 <= p < len :: Somewhere(cells, id, p))
    && (forall c, d, p :: HeldAt(cells, c, id, p) && HeldAt(cells, d, id, p) ==> c == d)
  }

  /** The cells of sequence `id` hold the list: one cell for each position, with the columns of that position. */
  ghost predicate Holds(cells: seq<Cell>, contents: seq<seq<Hidden>>, id: int, list: seq<int>) {
    && |contents| == |cells| && OnePerPosition(cells, id, |list|)
    && (forall c | 0 <= c < |cells| && id in cells[c].seqIds :: IsPast(contents[c], list, cells[c].pos))
  }

  /** Moving a sequence to the id `to`, cell by cell, leaves the list under that id. */
  lemma HoldsMoved(cells: seq<Cell>, after: seq<Cell>, contents: seq<seq<Hidden>>, id: int, to: int, list: seq<int>)
    requires Holds(cells, contents, id, list) && |after| == |cells|
    requires forall c | 0 <= c < |cells| :: to in after[c].seqIds <==> id in cells[c].seqIds
    requires forall c | 0 <= c < |cells| && to in after[c].seqIds :: after[c].pos == cells[c].pos
    ensures Holds(after, contents, to, list)
  {
    hide IsPast;
    assert forall c, p :: HeldAt(after, c, to, p) <==> HeldAt(cells, c, id, p);
    forall p | 0 <= p < |list|
      ensures Somewhere(after, to, p)
    {
      assert Somewhere(cells, id, p);
      var c :| HeldAt(cells, c, id, p);
      assert HeldAt(after, c, to, p);
    }
  }

  /** Copying sequence 0 to a new id makes that id hold the same list. */
  lemma CopiedHolds(cells: seq<Cell>, contents: seq<seq<Hidden>>, id: nat, list: seq<int>)
    requires NoTemporaryIds(cells, id) && id > 0 && Holds(cells, contents, 0, list)
    ensures Holds(Copied(cells, 0, id, 0, INT_MAX), contents, id, list)
    ensures NoTemporaryIds(Copied(cells, 0, id, 0, INT_MAX), id + 1)
    ensures forall c | 0 <= c < |cells| :: Copied(cells, 0, id, 0, INT_MAX)[c].pos == cells[c].pos
    ensures forall c | 0 <= c < |cells| :: Copied(cells, 0, id, 0, INT_MAX)[c].seqIds - {id} == cells[c].seqIds
  {
    hide Holds;
    HoldsMoved(cells, Copied(cells, 0, id, 0, INT_MAX), contents, 0, id, list);
  }

  // ---------------------------------------------------------------- A batch is evaluated

  /** Cell `c` is in the window and has the columns of its position, or is to get them from a row of the batch. */
  ghost predicate IsReadyAt(e: Pass, layers: nat, id: int, list: seq<int>, c: int)
    requires PassOk(e) && 0 <= c < |e.cells|
  {
    && c < e.n && 0 <= e.cells[c].pos < |list| && |e.contents[c]| == layers
    && if e.head <= c < e.head + |e.batch| then e.batch[c - e.head] == Row(list[e.cells[c].pos], e.cells[c].pos, id)
       else IsPast(e.contents[c], list, e.cells[c].pos)
  }

  /** With the rows that the batch has for it, the sequence is the list. */
  ghost predicate IsReady(e: Pass, layers: nat, id: int, list: seq<int>) {
    && PassOk(e) && OnePerPosition(e.cells, id, |list|)
    && (forall c | 0 <= c < |e.cells| && id in e.cells[c].seqIds :: IsReadyAt(e, layers, id, list, c))
    && (forall r | 0 <= r < |e.batch| && e.batch[r].seqId == id :: HeldAt(e.cells, e.head + r, id, e.batch[r].pos))
  }

  /** The rows of the sequence are as if the list were evaluated on its own. */
  ghost predicate RowsAreAlone(e: Pass, id: int, list: seq<int>, l: nat)
    requires PassOk(e)
  {
    forall r | 0 <= r < |e.batch| && e.batch[r].seqId == id ::
      0 <= e.batch[r].pos < |list| && HiddenOf(e, r, l) == Alone(list, e.batch[r].pos, l)
  }

  lemma ColumnIsAlone(e: Pass, layers: nat, id: int, list: seq<int>, c: nat, l: nat)
    requires IsReady(e, layers, id, list) && RowsAreAlone(e, id, list, l) && l < layers
    requires c < |e.cells| && id in e.cells[c].seqIds
    ensures c < e.n && 0 <= e.cells[c].pos < |list| && ColumnOf(e, c, l) == Alone(list, e.cells[c].pos, l)
  {
    hide HiddenOf, Alone, OnePerPosition;
    assert IsReadyAt(e, layers, id, list, c);
  }

  lemma SeenIsAlone(e: Pass, layers: nat, id: int, list: seq<int>, r: nat, l: nat)
    requires IsReady(e, layers, id, list) && RowsAreAlone(e, id, list, l) && l < layers
    requires r < |e.batch| && e.batch[r].seqId == id && 0 <= e.batch[r].pos < |list|
    ensures Seen(e, r, l) == SeenAlone(list, e.batch[r].pos, l)
  {
    hide HiddenOf, Alone, ColumnOf, RowsAreAlone, IsReadyAt;
    forall c: nat | c < |e.cells| && id in e.cells[c].seqIds
      ensures c < e.n && 0 <= e.cells[c].pos < |list| && ColumnOf(e, c, l) == Alone(list, e.cells[c].pos, l)
    {
      ColumnIsAlone(e, layers, id, list, c, l);
    }
    forall h | h in SeenAlone(list, e.batch[r].pos, l)
      ensures h in Seen(e, r, l)
    {
      var q := SeenAt(list, e.batch[r].pos, l, h);
      assert Somewhere(e.cells, id, q);
      var c :| HeldAt(e.cells, c, id, q);
      assert ColumnOf(e, c, l) == h && Attends(e.batch[r], e.cells[c]);
    }
  }

  /** Whatever else the cache and the batch hold, every layer gives the rows of the sequence what it gives when
      the list is evaluated on its own. */
  lemma {:induction false} EvaluatesAsAlone(e: Pass, layers: nat, id: int, list: seq<int>, l: nat)
    requires IsReady(e, layers, id, list) && l <= layers
    ensures RowsAreAlone(e, id, list, l)
  {
    hide OnePerPosition, Seen, SeenAlone;
    if l > 0 {
      EvaluatesAsAlone(e, layers, id, list, l - 1);
    }
    forall r | 0 <= r < |e.batch| && e.batch[r].seqId == id
      ensures 0 <= e.batch[r].pos < |list| && HiddenOf(e, r, l) == Alone(list, e.batch[r].pos, l)
    {
      assert HeldAt(e.cells, e.head + r, id, e.batch[r].pos);
      assert IsReadyAt(e, layers, id, list, e.head + r);
      if l > 0 {
        SeenIsAlone(e, layers, id, list, r, l - 1);
      }
    }
  }

  /** After the evaluation the sequence holds the list. */
  lemma ReadyHolds(e: Pass, layers: nat, id: int, list: seq<int>, after: seq<seq<Hidden>>)
    requires IsReady(e, layers, id, list) && StoredTo(e, after, layers)
    ensures Holds(e.cells, after, id, list)
  {
    hide OnePerPosition, HiddenOf, Alone, RowsAreAlone, StoredTo, IsReadyAt;
    assert |after| == |e.cells| by { StoredLengths(e, after, layers); }
    forall c | 0 <= c < |e.cells| && id in e.cells[c].seqIds
      ensures IsPast(after[c], list, e.cells[c].pos)
    {
      assert IsReadyAt(e, layers, id, list, c);
      ReadyCellHolds(e, layers, id, list, after, c);
    }
  }

  lemma StoredLengths(e: Pass, after: seq<seq<Hidden>>, l: nat)
    requires PassOk(e) && StoredTo(e, after, l)
    ensures |after| == |e.cells| && forall i | 0 <= i < |after| :: |after[i]| == |e.contents[i]|
  {
  }

  lemma ReadyCellHolds(e: Pass, layers: nat, id: int, list: seq<int>, after: seq<seq<Hidden>>, c: nat)
    requires IsReady(e, layers, id, list) && StoredTo(e, after, layers) && c < |e.cells| == |after| &&
      id in e.cells[c].seqIds
    requires IsReadyAt(e, layers, id, list, c)
    ensures IsPast(after[c], list, e.cells[c].pos)
  {
    hide OnePerPosition, HiddenOf, Alone;
    if e.head <= c < e.head + |e.batch| {
      var r := c - e.head;
      forall l: nat | l < |after[c]|
        ensures after[c][l] == Alone(list, e.cells[c].pos, l)
      {
        assert after[e.head + r][l] == HiddenOf(e, r, l);
        EvaluatesAsAlone(e, layers, id, list, l);
      }
    }
  }

  // ---------------------------------------------------------------- Placing a batch

  predicate ColumnsOk(contents: seq<seq<Hidden>>, layers: nat) {
    forall i | 0 <= i < |contents| :: |contents[i]| == layers
  }

  lemma PlacedKeepsOthers(cells: seq<Cell>, head: nat, batch: seq<Row>, n: nat)
    requires FreeRun(cells, head, |batch|) && NoTemporaryIds(cells, n)
    requires forall r | 0 <= r < |batch| :: 0 <= batch[r].seqId < n && 0 <= batch[r].pos < INT_MAX
    ensures NoTemporaryIds(Placed(cells, head, batch), n)
    ensures forall c | 0 <= c < |cells| && head <= c < head + |batch| ::
              cells[c].seqIds == {} && Placed(cells, head, batch)[c]
                == Cell(batch[c - head].pos, {batch[c - head].seqId})
    ensures forall c | 0 <= c < |cells| && !(head <= c < head + |batch|) :: Placed(cells, head, batch)[c] == cells[c]
  {
  }

  /** A pass over a batch that has been placed in a free run; the window leaves out no cell in use. */
  ghost predicate IsPassOver(e: Pass, cells: seq<Cell>, layers: nat) {
    && PassOk(e) && ColumnsOk(e.contents, layers) && FreeRun(cells, e.head, |e.batch|) &&
      e.cells == Placed(cells, e.head, e.batch)
    && forall i | e.n <= i < |e.cells| :: e.cells[i].seqIds == {}
  }

  /** The next token of a decoder extends the list that the decoder's cells hold. */
  lemma PlacedExtends(cells: seq<Cell>, e: Pass, layers: nat, n: nat, r: nat, list: seq<int>)
    requires IsPassOver(e, cells, layers) && NoTemporaryIds(cells, n) && r < |e.batch|
    requires forall k | 0 <= k < |e.batch| :: 0 <= e.batch[k].seqId < n && 0 <= e.batch[k].pos < INT_MAX
    requires forall k | 0 <= k < |e.batch| :: e.batch[k].seqId == e.batch[r].seqId ==> k == r
    requires Holds(cells, e.contents, e.batch[r].seqId, list) && e.batch[r].pos == |list|
    ensures IsReady(e, layers, e.batch[r].seqId, list + [e.batch[r].token])
  {
    hide IsPast, NoTemporaryIds, Placed;
    var id, more := e.batch[r].seqId, list + [e.batch[r].token];
    PlacedKeepsOthers(cells, e.head, e.batch, n);
    assert forall c, p :: HeldAt(e.cells, c, id, p) <==> HeldAt(cells, c, id, p) || (c == e.head + r && p == |list|);
    forall p | 0 <= p < |more|
      ensures Somewhere(e.cells, id, p)
    {
      if p < |list| {
        assert Somewhere(cells, id, p);
        var c :| HeldAt(cells, c, id, p);
        assert HeldAt(e.cells, c, id, p);
      } else {
        assert HeldAt(e.cells, e.head + r, id, p);
      }
    }
    forall c | 0 <= c < |e.cells| && id in e.cells[c].seqIds
      ensures IsReadyAt(e, layers, id, more, c)
    {
      assert HeldAt(e.cells, c, id, e.cells[c].pos);
      if !(e.head <= c < e.head + |e.batch|) {
        assert id in cells[c].seqIds && IsPast(e.contents[c], list, cells[c].pos);
        assert more[..|list|] == list;
        PastIsCausal(e.contents[c], list, more, cells[c].pos);
      }
    }
  }

  /** A prompt placed in an empty cache is sequence 0. */
  lemma PromptIsHeld(cells: seq<Cell>, e: Pass, layers: nat, prompt: seq<int>)
    requires IsPassOver(e, cells, layers) && forall c | 0 <= c < |cells| :: cells[c] == Cell(-1, {})
    requires |e.batch| == |prompt| < INT_MAX && forall r | 0 <= r < |e.batch| :: e.batch[r] == Row(prompt[r], r, 0)
    ensures IsReady(e, layers, 0, prompt)
    ensures NoTemporaryIds(e.cells, 1)
  {
    hide IsPast, Placed;
    PlacedKeepsOthers(cells, e.head, e.batch, 1);
    forall p | 0 <= p < |prompt|
      ensures Somewhere(e.cells, 0, p)
    {
      assert HeldAt(e.cells, e.head + p, 0, p);
    }
  }

  // ---------------------------------------------------------------- What attention sees

  ghost predicate AttendedAt(cells: seq<Cell>, n: nat, row: Row, i: int, p: int) {
    0 <= i < n && i < |cells| && Attends(row, cells[i]) && cells[i].pos == p
  }

  ghost predicate AttendedSomewhere(cells: seq<Cell>, n: nat, row: Row, p: int) {
    exists i :: AttendedAt(cells, n, row, i, p)
  }

  /** The cells that a row attends to inside the window are exactly one per position, holding the list, and the
      window leaves out no cell of the row's sequence. */
  ghost predicate AttendsExactly(cells: seq<Cell>, contents: seq<seq<Hidden>>, n: nat, row: Row, list: seq<int>) {
    && n <= |cells| == |contents|
    && (forall i | 0 <= i < n && Attends(row, cells[i]) :: IsPast(contents[i], list, cells[i].pos))
    && (forall p | 0 <= p < |list| :: AttendedSomewhere(cells, n, row, p))
    && (forall i, j, p :: AttendedAt(cells, n, row, i, p) && AttendedAt(cells, n, row, j, p) ==> i == j)
    && (forall i | n <= i < |cells| :: row.seqId !in cells[i].seqIds)
  }

  lemma HoldsIsAttended(cells: seq<Cell>, contents: seq<seq<Hidden>>, n: nat, row: Row, list: seq<int>)
    requires Holds(cells, contents, row.seqId, list) && 0 <= row.pos < |list|
    requires n <= |cells| && forall i | n <= i < |cells| :: cells[i].seqIds == {}
    ensures AttendsExactly(cells, contents, n, row, list[..row.pos + 1])
  {
    hide IsPast;
    var upTo := list[..row.pos + 1];
    forall p | 0 <= p < |upTo|
      ensures AttendedSomewhere(cells, n, row, p)
    {
      assert Somewhere(cells, row.seqId, p);
      var c :| HeldAt(cells, c, row.seqId, p);
      assert AttendedAt(cells, n, row, c, p);
    }
    forall i, j, p | AttendedAt(cells, n, row, i, p) && AttendedAt(cells, n, row, j, p)
      ensures i == j
    {
      assert HeldAt(cells, i, row.seqId, p) && HeldAt(cells, j, row.seqId, p);
    }
    forall i | 0 <= i < n && Attends(row, cells[i])
      ensures IsPast(contents[i], upTo, cells[i].pos)
    {
      assert IsPast(contents[i], list, cells[i].pos);
      PastIsCausal(contents[i], upTo, list, cells[i].pos);
    }
  }
}
