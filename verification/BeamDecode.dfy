/** The decode loop of whisper_full_with_state: all decoders share one key/value cache, and beam search moves
decoders onto each other's past by copying sequence ids through temporary ids.

The cache is shown to hold, for every live decoder, exactly the prompt followed by the decoder's own tokens, and every
row comes out as if that list were evaluated on its own. */
module BeamDecode {
  import opened KvCache
  import opened CachedPast

  const MAX_DECODERS := 8

  // ---------------------------------------------------------------- The reshuffle

  /** For each decoder the decoder it continues, or -1 when it has finished. */
  type Parents = seq<int>

  predicate ParentsOk(parents: Parents) {
    |parents| <= MAX_DECODERS && forall j | 0 <= j < |parents| :: -1 <= parents[j] < |parents|
  }

  /** After the copies to temporary ids for the first `k` decoders. */
  function CopiedOut(cells: seq<Cell>, parents: Parents, k: nat): (out: seq<Cell>)
    requires k <= |parents|
    ensures |out| == |cells|
  {
    if k == 0 then cells
    else
      var before := CopiedOut(cells, parents, k - 1);
      if parents[k - 1] < 0 then before else Copied(before, parents[k - 1], MAX_DECODERS + k - 1, 0, INT_MAX)
  }

  /** One decoder drops its old past, takes over what waits under its temporary id, and frees that id. */
  function MovedIn(cells: seq<Cell>, j: nat): (out: seq<Cell>)
    ensures |out| == |cells|
  {
    Removed(Copied(Removed(cells, j, 0, INT_MAX), MAX_DECODERS + j, j, 0, INT_MAX), MAX_DECODERS + j, 0, INT_MAX)
  }

  /** After that for the first `k` decoders. */
  function CopiedBack(cells: seq<Cell>, parents: Parents, k: nat): (out: seq<Cell>)
    requires k <= |parents|
    ensures |out| == |cells|
  {
    if k == 0 then cells
    else
      var before := CopiedBack(cells, parents, k - 1);
      if parents[k - 1] < 0 then before else MovedIn(before, k - 1)
  }

  function Reshuffled(cells: seq<Cell>, parents: Parents): (out: seq<Cell>)
    ensures |out| == |cells|
  {
    CopiedBack(CopiedOut(cells, parents, |parents|), parents, |parents|)
  }

  /** The sequences of a cell after all live decoders have moved onto their parents at once. */
  function MovedIds(ids: set<int>, parents: Parents): set<int> {
    (set id | id in ids && 0 <= id < |parents| && parents[id] < 0)
    + (set j | 0 <= j < |parents| && parents[j] >= 0 && parents[j] in ids)
  }

  function MovedCell(cell: Cell, parents: Parents): Cell {
    var ids := MovedIds(cell.seqIds, parents);
    Cell(if ids == {} then -1 else cell.pos, ids)
  }

  /** A cell after the copies for the first `k` decoders. */
  ghost predicate CopiedOutCell(before: Cell, after: Cell, parents: Parents, k: nat)
    requires k <= |parents|
  {
    && after.pos == before.pos
    && forall x :: x in after.seqIds <==>
         x in before.seqIds || (exists j | 0 <= j < k ::
           parents[j] >= 0 && parents[j] in before.seqIds && x == MAX_DECODERS + j)
  }

  lemma {:induction false} CopiesOut(cells: seq<Cell>, parents: Parents, k: nat, c: nat)
    requires ParentsOk(parents) && NoTemporaryIds(cells, |parents|) && k <= |parents| && c < |cells|
    ensures CopiedOutCell(cells[c], CopiedOut(cells, parents, k)[c], parents, k)
  {
    if k > 0 {
      CopiesOut(cells, parents, k - 1, c);
      CopiesOneOut(cells[c], CopiedOut(cells, parents, k - 1)[c], CopiedOut(cells, parents, k)[c], parents, k);
    }
  }

  lemma CopiesOneOut(cell: Cell, mid: Cell, after: Cell, parents: Parents, k: nat)
    requires ParentsOk(parents) && 0 < k <= |parents| && CellOk(cell) &&
      (forall id | id in cell.seqIds :: 0 <= id < |parents|)
    requires CopiedOutCell(cell, mid, parents, k - 1)
    requires after == if parents[k - 1] < 0 then mid
      else CopiedCell(mid, parents[k - 1], MAX_DECODERS + k - 1, 0, INT_MAX)
    ensures CopiedOutCell(cell, after, parents, k)
  {
  }

  /** Whether `x` is among the ids of the cell `before` once the first `k` decoders have moved in. */
  ghost predicate HasMovedId(before: Cell, parents: Parents, k: nat, x: int) {
    if 0 <= x < |parents| then
      if x < k && parents[x] >= 0 then parents[x] in before.seqIds else x in before.seqIds
    else
      var j := x - MAX_DECODERS; k <= j < |parents| && parents[j] >= 0 && parents[j] in before.seqIds
  }

  /** A cell after the first `k` decoders have moved in. */
  ghost predicate CopiedBackCell(before: Cell, after: Cell, parents: Parents, k: nat) {
    && after.pos == (if after.seqIds == {} then -1 else before.pos)
    && forall x :: x in after.seqIds <==> HasMovedId(before, parents, k, x)
  }

  lemma PickId<T>(ids: set<T>) returns (x: T)
    requires ids != {}
    ensures x in ids
  {
    x :| x in ids;
  }

  lemma MovesOneIn(cell: Cell, mid: Cell, parents: Parents, j: nat)
    requires ParentsOk(parents) && j < |parents| && parents[j] >= 0
    requires CellOk(cell) && CopiedBackCell(cell, mid, parents, j)
    ensures var r1 := RemovedCell(mid, j, 0, INT_MAX);
      var r2 := CopiedCell(r1, MAX_DECODERS + j, j, 0, INT_MAX);
      CopiedBackCell(cell, RemovedCell(r2, MAX_DECODERS + j, 0, INT_MAX), parents, j + 1)
  {
    var t := MAX_DECODERS + j;
    var r1 := RemovedCell(mid, j, 0, INT_MAX);
    var r2 := CopiedCell(r1, t, j, 0, INT_MAX);
    var r3 := RemovedCell(r2, t, 0, INT_MAX);
    if mid.seqIds != {} {
      var some := PickId(mid.seqIds);
      assert HasMovedId(cell, parents, j, some) ==> cell.seqIds != {};
    }
    assert r1.seqIds == mid.seqIds - {j} && (r1.pos >= 0 <==> r1.seqIds != {});
    assert t in r1.seqIds ==> r1.seqIds != {};
    assert r2.seqIds == if t in mid.seqIds then r1.seqIds + {j} else r1.seqIds;
    assert r2.pos >= 0 <==> r2.seqIds != {};
    assert r3.seqIds == r2.seqIds - {t};
    forall x
      ensures x in r3.seqIds <==> HasMovedId(cell, parents, j + 1, x)
    {
      assert x in mid.seqIds <==> HasMovedId(cell, parents, j, x);
      assert t in mid.seqIds <==> HasMovedId(cell, parents, j, t);
    }
  }

  lemma {:induction false} MovesIn(cells: seq<Cell>, parents: Parents, k: nat, c: nat)
    requires ParentsOk(parents) && NoTemporaryIds(cells, |parents|) && k <= |parents| && c < |cells|
    ensures CopiedBackCell(cells[c], CopiedBack(CopiedOut(cells, parents, |parents|), parents, k)[c], parents, k)
  {
    var out := CopiedOut(cells, parents, |parents|);
    if k == 0 {
      CopiesOut(cells, parents, |parents|, c);
      NothingMovedYet(cells[c], out[c], parents);
    } else {
      MovesIn(cells, parents, k - 1, c);
      if parents[k - 1] >= 0 {
        MovesOneIn(cells[c], CopiedBack(out, parents, k - 1)[c], parents, k - 1);
      } else {
        assert forall x :: HasMovedId(cells[c], parents, k - 1, x) <==> HasMovedId(cells[c], parents, k, x);
      }
    }
  }

  lemma NothingMovedYet(cell: Cell, out: Cell, parents: Parents)
    requires ParentsOk(parents) && CellOk(cell) && (forall id | id in cell.seqIds :: 0 <= id < |parents|)
    requires CopiedOutCell(cell, out, parents, |parents|)
    ensures CopiedBackCell(cell, out, parents, 0)
  {
    forall x
      ensures x in out.seqIds <==> HasMovedId(cell, parents, 0, x)
    {
    }
    if cell.seqIds != {} {
      var some := PickId(cell.seqIds);
      assert some in out.seqIds;
    }
  }

  /** The reshuffle is a simultaneous assignment: each live decoder ends with its parent's old cells, finished
      decoders keep theirs, temporary ids are free again, and a cell is freed exactly when nobody holds it. */
  lemma ReshuffleIsSimultaneous(cells: seq<Cell>, parents: Parents)
    requires ParentsOk(parents) && NoTemporaryIds(cells, |parents|)
    ensures forall c | 0 <= c < |cells| :: Reshuffled(cells, parents)[c] == MovedCell(cells[c], parents)
    ensures NoTemporaryIds(Reshuffled(cells, parents), |parents|)
  {
    forall c | 0 <= c < |cells|
      ensures Reshuffled(cells, parents)[c] == MovedCell(cells[c], parents)
      ensures CellOk(Reshuffled(cells, parents)[c])
    {
      MovesIn(cells, parents, |parents|, c);
      var after := Reshuffled(cells, parents)[c];
      assert after.seqIds == MovedIds(cells[c].seqIds, parents) by {
        forall x
          ensures x in after.seqIds <==> x in MovedIds(cells[c].seqIds, parents)
        {
          assert x in after.seqIds <==> HasMovedId(cells[c], parents, |parents|, x);
        }
      }
      if after.seqIds != {} {
        var some := PickId(after.seqIds);
        assert cells[c].seqIds != {};
      }
    }
  }

  /** After the reshuffle a live decoder holds what its parent held. */
  lemma ReshuffleHolds(cells: seq<Cell>, contents: seq<seq<Hidden>>, parents: Parents, j: nat, list: seq<int>)
    requires ParentsOk(parents) && NoTemporaryIds(cells, |parents|) && j < |parents| && parents[j] >= 0
    requires Holds(cells, contents, parents[j], list)
    ensures Holds(Reshuffled(cells, parents), contents, j, list)
  {
    hide Holds, Reshuffled;
    ReshuffleIsSimultaneous(cells, parents);
    HoldsMoved(cells, Reshuffled(cells, parents), contents, parents[j], j, list);
  }

  // ---------------------------------------------------------------- The decode loop

  /** `done` stands for completed or failed. */
  datatype Decoder = Decoder(tokens: seq<int>, done: bool)

  /** A sampled continuation of a decoder. */
  datatype Candidate = Candidate(decoderIdx: nat, tokens: seq<int>)

  /** A candidate continues a live decoder by one token. */
  predicate Continues(candidate: Candidate, decoders: seq<Decoder>) {
    && candidate.decoderIdx < |decoders| && !decoders[candidate.decoderIdx].done
    && |candidate.tokens| == |decoders[candidate.decoderIdx].tokens| + 1
    && candidate.tokens[..|candidate.tokens| - 1] == decoders[candidate.decoderIdx].tokens
  }

  predicate CandidatesOk(candidates: seq<Candidate>, decoders: seq<Decoder>) {
    candidates != [] && forall i | 0 <= i < |candidates| :: Continues(candidates[i], decoders)
  }

  function Finished(decoder: Decoder, step: nat, rule: Rule): Decoder {
    Decoder(decoder.tokens, decoder.done || IsOver(rule, step, decoder.tokens))
  }

  predicate AllDone(decoders: seq<Decoder>) { forall j | 0 <= j < |decoders| :: decoders[j].done }

  /** A decoder's tokens are those that decoder `p` had, and one more. */
  ghost predicate IsChild(before: seq<Decoder>, p: int, tokens: seq<int>) {
    && 0 <= p < |before| && !before[p].done
    && |tokens| == |before[p].tokens| + 1 && tokens[..|before[p].tokens|] == before[p].tokens
  }

  /** Sampling: finished decoders stay as they are, and all others continue one that was live. */
  ghost predicate Extend(before: seq<Decoder>, after: seq<Decoder>) {
    && |after| == |before|
    && forall j | 0 <= j < |before| ::
         if before[j].done then after[j] == before[j]
         else !after[j].done && exists p :: IsChild(before, p, after[j].tokens)
  }

  /** When a decoder is completed or has failed, by the step and its tokens. */
  type Rule = (nat, seq<int>) -> bool

  predicate IsOver(rule: Rule, step: nat, tokens: seq<int>) {
    rule(step, tokens)
  }

  /** One step: after sampling, a decoder is done exactly if its tokens say so. */
  ghost predicate Descend(before: seq<Decoder>, after: seq<Decoder>, step: nat, rule: Rule) {
    && |after| == |before|
    && forall j | 0 <= j < |before| ::
         if before[j].done then after[j] == before[j]
         else after[j].done == IsOver(rule, step, after[j].tokens) && exists p :: IsChild(before, p, after[j].tokens)
  }

  /** The candidate at a place has this parent and these tokens. */
  ghost predicate IsAt(candidates: seq<Candidate>, place: int, parent: int, tokens: seq<int>) {
    0 <= place < |candidates| && candidates[place].decoderIdx == parent && candidates[place].tokens == tokens
  }

  lemma {:induction false} CopiedOutPrefix(cells: seq<Cell>, p: Parents, q: Parents, k: nat)
    requires k <= |p| && k <= |q| && p[..k] == q[..k]
    ensures CopiedOut(cells, p, k) == CopiedOut(cells, q, k)
  {
    if k > 0 {
      assert p[k - 1] == p[..k][k - 1] == q[k - 1];
      assert p[..k - 1] == p[..k][..k - 1] && q[..k - 1] == q[..k][..k - 1];
      CopiedOutPrefix(cells, p, q, k - 1);
    }
  }

  /** Each live decoder's cells hold the prompt and its first `step` tokens; it has `ahead` more. */
  ghost predicate AllHold(cells: seq<Cell>, contents: seq<seq<Hidden>>, prompt: seq<int>, decoders: seq<Decoder>,
                          step: nat, ahead: nat) {
    && NoTemporaryIds(cells, |decoders|)
    && forall j | 0 <= j < |decoders| && !decoders[j].done ::
         |decoders[j].tokens| == step + ahead && Holds(cells, contents, j, prompt + decoders[j].tokens[..step])
  }

  /** The first `k` decoders have been served: a live one has the tokens of the candidate at its place. */
  ghost predicate ParentsOf(parents: Parents, places: seq<int>, candidates: seq<Candidate>, before: seq<Decoder>,
                            after: seq<Decoder>, k: nat) {
    && |before| == |after| <= MAX_DECODERS && k == |parents| == |places| <= |before|
    && (forall j | 0 <= j < k ::
          if before[j].done then parents[j] == -1 && after[j] == before[j]
          else 0 <= parents[j] < |before| && !after[j].done && IsAt(candidates, places[j], parents[j], after[j].tokens))
    && (forall j | k <= j < |before| :: after[j] == before[j])
  }

  lemma ParentTaken(parents: Parents, p: int, places: seq<int>, place: int, candidates: seq<Candidate>,
                    before: seq<Decoder>, mid: seq<Decoder>, after: seq<Decoder>, k: nat)
    requires ParentsOf(parents, places, candidates, before, mid, k) && k < |before| == |after|
    requires forall j | 0 <= j < |after| && j != k :: after[j] == mid[j]
    requires if mid[k].done then p == -1 && after[k] == mid[k]
             else 0 <= p < |before| && !after[k].done && IsAt(candidates, place, p, after[k].tokens)
    ensures ParentsOf(parents + [p], places + [place], candidates, before, after, k + 1)
  {
  }

  lemma Unserved(parents: Parents, places: seq<int>, candidates: seq<Candidate>, before: seq<Decoder>,
                 after: seq<Decoder>, k: nat)
    requires ParentsOf(parents, places, candidates, before, after, k) && k < |before|
    ensures |after| == |before| && after[k] == before[k]
  {
  }

  lemma CandidatesHaveParents(candidates: seq<Candidate>, decoders: seq<Decoder>)
    requires CandidatesOk(candidates, decoders)
    ensures candidates != [] && forall i | 0 <= i < |candidates| :: candidates[i].decoderIdx < |decoders|
  {
  }

  lemma ParentsOfAreOk(parents: Parents, places: seq<int>, candidates: seq<Candidate>, before: seq<Decoder>,
                       after: seq<Decoder>)
    requires ParentsOf(parents, places, candidates, before, after, |before|)
    ensures ParentsOk(parents) && forall j | 0 <= j < |after| :: parents[j] < 0 <==> after[j].done
    ensures forall j | 0 <= j < |before| :: TookOver(candidates, places[j], before[j], after[j])
  {
  }

  /** A finished decoder is unchanged; a live one has taken over the tokens of the candidate at its place. */
  ghost predicate TookOver(candidates: seq<Candidate>, place: int, before: Decoder, after: Decoder) {
    if before.done then after == before
    else !after.done && 0 <= place < |candidates| && after.tokens == candidates[place].tokens
  }

  lemma TakenList(cells: seq<Cell>, contents: seq<seq<Hidden>>, prompt: seq<int>, before: seq<Decoder>,
                  candidates: seq<Candidate>, parents: Parents, place: int, step: nat, j: nat, tokens: seq<int>)
    requires AllHold(cells, contents, prompt, before, step, 0) && CandidatesOk(candidates, before)
    requires ParentsOk(parents) && |parents| == |before| && j < |parents| && parents[j] >= 0 &&
      IsAt(candidates, place, parents[j], tokens)
    ensures |tokens| == step + 1 && Holds(Reshuffled(cells, parents), contents, j, prompt + tokens[..step])
  {
    var parent := before[parents[j]];
    assert tokens[..step] == parent.tokens == parent.tokens[..step];
    ReshuffleHolds(cells, contents, parents, j, prompt + parent.tokens[..step]);
  }

  lemma ReshuffledHold(cells: seq<Cell>, contents: seq<seq<Hidden>>, prompt: seq<int>, before: seq<Decoder>,
                       after: seq<Decoder>, candidates: seq<Candidate>, parents: Parents, places: seq<int>, step: nat)
    requires AllHold(cells, contents, prompt, before, step, 0) && CandidatesOk(candidates, before)
    requires ParentsOf(parents, places, candidates, before, after, |before|) && ParentsOk(parents)
    ensures AllHold(Reshuffled(cells, parents), contents, prompt, after, step, 1)
  {
    ReshuffleIsSimultaneous(cells, parents);
    forall j | 0 <= j < |after| && !after[j].done
      ensures |after[j].tokens| == step + 1 &&
        Holds(Reshuffled(cells, parents), contents, j, prompt + after[j].tokens[..step])
    {
      TakenList(cells, contents, prompt, before, candidates, parents, places[j], step, j, after[j].tokens);
    }
  }

  /** After the reshuffle a cell belongs to a live decoder exactly if it belonged to the parent of the candidate taken,
      and to a finished one exactly if it did before. */
  ghost predicate CellsFollow(cells: seq<Cell>, after: seq<Cell>, candidates: seq<Candidate>, place: int,
                              decoder: Decoder, j: nat)
  {
    && |after| == |cells| && (decoder.done || 0 <= place < |candidates|)
    && var parent := if decoder.done then j else candidates[place].decoderIdx;
       forall c | 0 <= c < |cells| :: j in after[c].seqIds <==> parent in cells[c].seqIds
  }

  lemma AllCellsFollow(cells: seq<Cell>, parents: Parents, places: seq<int>, candidates: seq<Candidate>,
                       before: seq<Decoder>, after: seq<Decoder>)
    requires ParentsOf(parents, places, candidates, before, after, |before|) && ParentsOk(parents)
    requires NoTemporaryIds(cells, |parents|)
    ensures forall j | 0 <= j < |after| ::
              CellsFollow(cells, Reshuffled(cells, parents), candidates, places[j], after[j], j)
  {
    forall j: nat | j < |after|
      ensures CellsFollow(cells, Reshuffled(cells, parents), candidates, places[j], after[j], j)
    {
      ReshuffleIsSimultaneous(cells, parents);
    }
  }

  /** Where the next candidate is taken, wrapping around at the end. */
  function WrapAt(at: nat, count: nat): nat { if at >= count then 0 else at }

  /** The next candidate in line; candidates with the same tokens are passed over after the first step. */
  method NextCandidate(candidates: seq<Candidate>, at: nat, step: nat) returns (cur: Candidate, next: nat)
    requires candidates != []
    ensures cur == candidates[WrapAt(at, |candidates|)] && WrapAt(at, |candidates|) < next <= |candidates|
    ensures forall i | WrapAt(at, |candidates|) < i < next :: IsPassed(candidates, WrapAt(at, |candidates|), i, step)
    ensures next < |candidates| ==> !IsPassed(candidates, WrapAt(at, |candidates|), next, step)
  {
    next := at;
    if next >= |candidates| {
      next := 0;
    }
    cur := candidates[next];
    next := next + 1;
    while |candidates| > next && candidates[next].tokens == cur.tokens && step > 0
      invariant WrapAt(at, |candidates|) < next <= |candidates|
      invariant forall i | WrapAt(at, |candidates|) < i < next ::
        IsPassed(candidates, WrapAt(at, |candidates|), i, step)
      decreases |candidates| - next
    {
      next := next + 1;
    }
  }

  /** The last live decoder before the first `k`, or -1. */
  function LastLive(decoders: seq<Decoder>, k: nat): (last: int)
    requires k <= |decoders|
    ensures -1 <= last < k && (last >= 0 ==> !decoders[last].done)
    ensures forall i | last < i < k :: decoders[i].done
  {
    if k == 0 then -1 else if !decoders[k - 1].done then k - 1 else LastLive(decoders, k - 1)
  }

  /** A candidate that may be passed over after place `p`: at the first step none, then those with its tokens. */
  ghost predicate IsPassed(candidates: seq<Candidate>, p: int, i: int, step: nat)
    requires 0 <= p < |candidates| && 0 <= i < |candidates|
  {
    step > 0 && candidates[i].tokens == candidates[p].tokens
  }

  /** The place after `p`: the next one that is not passed over, or 0 if there is none. */
  ghost predicate Follows(candidates: seq<Candidate>, p: int, q: int, step: nat) {
    && 0 <= p < |candidates| && 0 <= q < |candidates|
    && if p < q then
         !IsPassed(candidates, p, q, step) && forall i | p < i < q :: IsPassed(candidates, p, i, step)
       else
         q == 0 && forall i | p < i < |candidates| :: IsPassed(candidates, p, i, step)
  }

  /** The places are taken in turn: the first live decoder has place 0, each later one the place that follows. */
  ghost predicate InTurn(candidates: seq<Candidate>, places: seq<int>, decoders: seq<Decoder>, j: nat, step: nat)
    requires j < |decoders| && j < |places|
  {
    var last := LastLive(decoders, j);
    if last < 0 then places[j] == 0 else Follows(candidates, places[last], places[j], step)
  }

  ghost predicate AllInTurn(candidates: seq<Candidate>, places: seq<int>, decoders: seq<Decoder>, step: nat)
    requires |places| <= |decoders|
  {
    forall j | 0 <= j < |places| && !decoders[j].done :: InTurn(candidates, places, decoders, j, step)
  }

  /** Where the loop stands after the places given out. */
  ghost predicate CursorOk(candidates: seq<Candidate>, places: seq<int>, decoders: seq<Decoder>, at: nat, step: nat)
    requires |places| <= |decoders|
  {
    var last := LastLive(decoders, |places|);
    if last < 0 then at == 0
    else
      && 0 <= places[last] < at <= |candidates|
      && (forall i | places[last] < i < at :: IsPassed(candidates, places[last], i, step))
      && (at < |candidates| ==> !IsPassed(candidates, places[last], at, step))
  }

  lemma NobodyServed(candidates: seq<Candidate>, decoders: seq<Decoder>, step: nat)
    requires |decoders| <= MAX_DECODERS
    ensures ParentsOf([], [], candidates, decoders, decoders, 0)
    ensures AllInTurn(candidates, [], decoders, step) && CursorOk(candidates, [], decoders, 0, step)
  {
  }

  /** A finished decoder takes no turn. */
  lemma TurnSkipped(candidates: seq<Candidate>, places: seq<int>, decoders: seq<Decoder>, at: nat, step: nat)
    requires |places| < |decoders| && decoders[|places|].done && candidates != []
    requires AllInTurn(candidates, places, decoders, step) && CursorOk(candidates, places, decoders, at, step)
    ensures AllInTurn(candidates, places + [-1], decoders, step)
    ensures CursorOk(candidates, places + [-1], decoders, at, step)
  {
    InTurnExtends(candidates, places, -1, decoders, step);
  }

  lemma InTurnExtends(candidates: seq<Candidate>, places: seq<int>, place: int, decoders: seq<Decoder>, step: nat)
    requires |places| < |decoders| && AllInTurn(candidates, places, decoders, step)
    ensures forall j | 0 <= j < |places| && !decoders[j].done ::
              InTurn(candidates, places + [place], decoders, j, step)
  {
    forall j | 0 <= j < |places| && !decoders[j].done
      ensures InTurn(candidates, places + [place], decoders, j, step)
    {
      assert InTurn(candidates, places, decoders, j, step);
    }
  }

  /** A live decoder takes the place where the loop stands, or the first if the list is used up. */
  lemma TurnTaken(candidates: seq<Candidate>, places: seq<int>, decoders: seq<Decoder>, at: nat, next: nat, step: nat)
    requires |places| < |decoders| && !decoders[|places|].done && candidates != []
    requires AllInTurn(candidates, places, decoders, step) && CursorOk(candidates, places, decoders, at, step)
    requires var place := WrapAt(at, |candidates|);
      && place < next <= |candidates|
      && (forall i | place < i < next :: IsPassed(candidates, place, i, step))
      && (next < |candidates| ==> !IsPassed(candidates, place, next, step))
    ensures AllInTurn(candidates, places + [WrapAt(at, |candidates|)], decoders, step)
    ensures CursorOk(candidates, places + [WrapAt(at, |candidates|)], decoders, next, step)
  {
    hide IsPassed;
    var place := WrapAt(at, |candidates|);
    InTurnExtends(candidates, places, place, decoders, step);
    assert InTurn(candidates, places + [place], decoders, |places|, step);
  }

  // ---------------------------------------------------------------- Batches

  /** The rows of a prompt: positions from 0 on, all for sequence 0. */
  function PromptRows(prompt: seq<int>): seq<Row> {
    seq(|prompt|, i requires 0 <= i < |prompt| => Row(prompt[i], i, 0))
  }

  predicate HaveTokens(decoders: seq<Decoder>) {
    forall j | 0 <= j < |decoders| && !decoders[j].done :: |decoders[j].tokens| > 0
  }

  /** One row for each live decoder among the first `k`: its last token, at position `pos`. */
  function NextRows(decoders: seq<Decoder>, pos: int, k: nat): (rows: seq<Row>)
    requires k <= |decoders| && HaveTokens(decoders)
  {
    if k == 0 then []
    else NextRows(decoders, pos, k - 1) + if decoders[k - 1].done then [] else [NextRow(decoders, pos, k - 1)]
  }

  function NextRow(decoders: seq<Decoder>, pos: int, j: nat): Row
    requires j < |decoders| && |decoders[j].tokens| > 0
  {
    Row(decoders[j].tokens[|decoders[j].tokens| - 1], pos, j)
  }

  predicate HasRow(rows: seq<Row>, r: int, j: int) {
    0 <= r < |rows| && rows[r].seqId == j
  }

  lemma {:induction false} RowOfDecoder(decoders: seq<Decoder>, pos: int, k: nat, r: nat)
    requires k <= |decoders| && HaveTokens(decoders) && r < |NextRows(decoders, pos, k)|
    ensures var row := NextRows(decoders, pos, k)[r];
      0 <= row.seqId < k && !decoders[row.seqId].done && row == NextRow(decoders, pos, row.seqId)
  {
    if k > 0 && r < |NextRows(decoders, pos, k - 1)| {
      RowOfDecoder(decoders, pos, k - 1, r);
    }
  }

  lemma {:induction false} RowsAreDistinct(decoders: seq<Decoder>, pos: int, k: nat, r: nat, q: nat)
    requires k <= |decoders| && HaveTokens(decoders) && r < q < |NextRows(decoders, pos, k)|
    ensures NextRows(decoders, pos, k)[r].seqId != NextRows(decoders, pos, k)[q].seqId
  {
    var before := NextRows(decoders, pos, k - 1);
    if q < |before| {
      RowsAreDistinct(decoders, pos, k - 1, r, q);
    } else {
      RowOfDecoder(decoders, pos, k - 1, r);
    }
  }

  lemma {:induction false} DecoderHasRow(decoders: seq<Decoder>, pos: int, k: nat, j: nat) returns (r: nat)
    requires k <= |decoders| && HaveTokens(decoders) && j < k && !decoders[j].done
    ensures HasRow(NextRows(decoders, pos, k), r, j)
  {
    if j == k - 1 {
      r := |NextRows(decoders, pos, k - 1)|;
    } else {
      r := DecoderHasRow(decoders, pos, k - 1, j);
    }
  }

  /** Evaluating the next tokens puts every live decoder's last token into the cache. */
  lemma NextTokensHeld(cells: seq<Cell>, e: Pass, layers: nat, after: seq<seq<Hidden>>, prompt: seq<int>,
                       decoders: seq<Decoder>, step: nat)
    requires AllHold(cells, e.contents, prompt, decoders, step, 1) && |prompt| + step < INT_MAX
    requires IsPassOver(e, cells, layers) && StoredTo(e, after, layers) &&
      e.batch == NextRows(decoders, |prompt| + step, |decoders|)
    ensures AllHold(e.cells, after, prompt, decoders, step + 1, 0)
  {
    hide Holds, IsReady, StoredTo, FreeRun, Placed;
    var pos := |prompt| + step;
    forall r | 0 <= r < |e.batch|
      ensures 0 <= e.batch[r].seqId < |decoders| && e.batch[r].pos == pos
    {
      RowOfDecoder(decoders, pos, |decoders|, r);
    }
    PlacedKeepsOthers(cells, e.head, e.batch, |decoders|);
    forall j | 0 <= j < |decoders| && !decoders[j].done
      ensures Holds(e.cells, after, j, prompt + decoders[j].tokens[..step + 1])
    {
      NextTokenIsReady(cells, e, layers, prompt, decoders, step, j);
      ReadyHolds(e, layers, j, prompt + decoders[j].tokens[..step + 1], after);
    }
  }

  lemma NextTokenIsReady(cells: seq<Cell>, e: Pass, layers: nat, prompt: seq<int>, decoders: seq<Decoder>, step: nat,
                         j: nat)
    requires AllHold(cells, e.contents, prompt, decoders, step, 1) && |prompt| + step < INT_MAX
    requires IsPassOver(e, cells, layers) && e.batch == NextRows(decoders, |prompt| + step, |decoders|)
    requires j < |decoders| && !decoders[j].done
    ensures IsReady(e, layers, j, prompt + decoders[j].tokens[..step + 1])
  {
    hide Holds, IsReady, FreeRun, Placed, NoTemporaryIds;
    var pos, tokens := |prompt| + step, decoders[j].tokens;
    var r := DecoderHasRow(decoders, pos, |decoders|, j);
    forall k | 0 <= k < |e.batch|
      ensures 0 <= e.batch[k].seqId < |decoders| && e.batch[k].pos == pos && (e.batch[k].seqId == j ==> k == r)
    {
      RowOfDecoder(decoders, pos, |decoders|, k);
      if k < r {
        RowsAreDistinct(decoders, pos, |decoders|, k, r);
      } else if r < k {
        RowsAreDistinct(decoders, pos, |decoders|, r, k);
      }
    }
    RowOfDecoder(decoders, pos, |decoders|, r);
    PlacedExtends(cells, e, layers, |decoders|, r, prompt + tokens[..step]);
    assert (prompt + tokens[..step]) + [e.batch[r].token] == prompt + tokens[..step + 1];
  }

  /** A batch that has been evaluated, what came out of the last layer, and the cache that attention saw. */
  datatype Evaluation = Evaluation(prompt: seq<int>, decoders: seq<Decoder>, rows: seq<Row>, outputs: seq<Hidden>,
                                   n: nat, cells: seq<Cell>, contents: seq<seq<Hidden>>)

  /** A row attends to exactly the list, ends with its last token, and comes out as if the list were evaluated on its
      own. */
  ghost predicate RowIsExact(e: Evaluation, r: int, list: seq<int>, layers: nat) {
    && 0 <= r < |e.rows| == |e.outputs| && list != []
    && AttendsExactly(e.cells, e.contents, e.n, e.rows[r], list)
    && e.rows[r].pos == |list| - 1 && e.rows[r].token == list[|list| - 1]
    && e.outputs[r] == Alone(list, |list| - 1, layers)
  }

  /** A row of the prompt sees the prompt up to itself. */
  ghost predicate PromptRowIsExact(e: Evaluation, r: nat, layers: nat) {
    r < |e.rows| == |e.prompt| && e.rows[r].seqId == 0 && RowIsExact(e, r, e.prompt[..r + 1], layers)
  }

  ghost predicate PromptIsExact(e: Evaluation, layers: nat) {
    |e.rows| == |e.prompt| && forall r: nat | r < |e.rows| :: PromptRowIsExact(e, r, layers)
  }

  /** Every live decoder has a row, and every row is that of a live decoder, for exactly the prompt and its `t + 1`
      tokens. */
  ghost predicate NextIsExact(e: Evaluation, t: nat, layers: nat) {
    && (forall j | 0 <= j < |e.decoders| && !e.decoders[j].done :: exists r :: HasRow(e.rows, r, j))
    && (forall r | 0 <= r < |e.rows| ::
          && 0 <= e.rows[r].seqId < |e.decoders| && !e.decoders[e.rows[r].seqId].done
          && |e.decoders[e.rows[r].seqId].tokens| == t + 1
          && RowIsExact(e, r, e.prompt + e.decoders[e.rows[r].seqId].tokens, layers))
  }

  lemma NextRowIsExact(cells: seq<Cell>, e: Pass, layers: nat, v: Evaluation, step: nat, r: nat)
    requires AllHold(cells, e.contents, v.prompt, v.decoders, step, 1) && |v.prompt| + step < INT_MAX
    requires IsPassOver(e, cells, layers) && e.batch == v.rows == NextRows(v.decoders, |v.prompt| + step, |v.decoders|)
    requires AllHold(v.cells, v.contents, v.prompt, v.decoders, step + 1, 0) && AreHidden(e, v.outputs, layers)
    requires v.n == e.n && v.cells == e.cells && r < |v.rows|
    ensures 0 <= v.rows[r].seqId < |v.decoders| && !v.decoders[v.rows[r].seqId].done
    ensures RowIsExact(v, r, v.prompt + v.decoders[v.rows[r].seqId].tokens, layers)
  {
    hide Holds, IsReady, FreeRun, Placed, NoTemporaryIds, AttendsExactly, HiddenOf, Alone;
    RowOfDecoder(v.decoders, |v.prompt| + step, |v.decoders|, r);
    var j: nat := v.rows[r].seqId;
    var list := v.prompt + v.decoders[j].tokens;
    assert v.decoders[j].tokens[..step + 1] == v.decoders[j].tokens;
    HoldsIsAttended(v.cells, v.contents, v.n, v.rows[r], list);
    assert list[..v.rows[r].pos + 1] == list;
    NextTokenIsReady(cells, e, layers, v.prompt, v.decoders, step, j);
    EvaluatesAsAlone(e, layers, j, list, layers);
    assert HiddenOf(e, r, layers) == Alone(list, |list| - 1, layers);
  }

  lemma NextBatchIsExact(cells: seq<Cell>, e: Pass, layers: nat, v: Evaluation, step: nat)
    requires AllHold(cells, e.contents, v.prompt, v.decoders, step, 1) && |v.prompt| + step < INT_MAX
    requires IsPassOver(e, cells, layers) && e.batch == v.rows == NextRows(v.decoders, |v.prompt| + step, |v.decoders|)
    requires StoredTo(e, v.contents, layers) && AreHidden(e, v.outputs, layers) && v.n == e.n && v.cells == e.cells
    ensures AllHold(v.cells, v.contents, v.prompt, v.decoders, step + 1, 0) && NextIsExact(v, step, layers)
  {
    hide Holds, IsPassOver, StoredTo, AreHidden, NoTemporaryIds, RowIsExact;
    NextTokensHeld(cells, e, layers, v.contents, v.prompt, v.decoders, step);
    forall r: nat | r < |v.rows|
      ensures 0 <= v.rows[r].seqId < |v.decoders| && !v.decoders[v.rows[r].seqId].done
      ensures RowIsExact(v, r, v.prompt + v.decoders[v.rows[r].seqId].tokens, layers)
    {
      NextRowIsExact(cells, e, layers, v, step, r);
    }
    forall j | 0 <= j < |v.decoders| && !v.decoders[j].done
      ensures exists r :: HasRow(v.rows, r, j)
    {
      var r := DecoderHasRow(v.decoders, |v.prompt| + step, |v.decoders|, j);
    }
  }

  /** The prompt's batch in the emptied cache. */
  lemma PromptBatchIsExact(cells: seq<Cell>, e: Pass, layers: nat, v: Evaluation)
    requires IsPassOver(e, cells, layers) && forall c | 0 <= c < |cells| :: cells[c] == Cell(-1, {})
    requires e.batch == v.rows == PromptRows(v.prompt) && |v.prompt| < INT_MAX
    requires StoredTo(e, v.contents, layers) && AreHidden(e, v.outputs, layers) && v.n == e.n && v.cells == e.cells
    ensures Holds(v.cells, v.contents, 0, v.prompt) && NoTemporaryIds(v.cells, 1) && PromptIsExact(v, layers)
  {
    hide Holds, IsReady, FreeRun, Placed, NoTemporaryIds, PromptRowIsExact, RowsAreAlone, StoredTo, AreHidden;
    PromptIsHeld(cells, e, layers, v.prompt);
    ReadyHolds(e, layers, 0, v.prompt, v.contents);
    EvaluatesAsAlone(e, layers, 0, v.prompt, layers);
    forall r: nat | r < |v.rows|
      ensures PromptRowIsExact(v, r, layers)
    {
      PromptRowAttends(e, layers, v, r);
    }
  }

  lemma PromptRowAttends(e: Pass, layers: nat, v: Evaluation, r: nat)
    requires PassOk(e) && Holds(v.cells, v.contents, 0, v.prompt) && RowsAreAlone(e, 0, v.prompt, layers) &&
      AreHidden(e, v.outputs, layers)
    requires e.batch == v.rows == PromptRows(v.prompt) && v.n == e.n && v.cells == e.cells && r < |v.rows|
    requires forall i | e.n <= i < |e.cells| :: e.cells[i].seqIds == {}
    ensures PromptRowIsExact(v, r, layers)
  {
    hide Holds, AttendsExactly, HiddenOf, Alone;
    HoldsIsAttended(v.cells, v.contents, v.n, v.rows[r], v.prompt);
    AloneIsCausal(v.prompt[..r + 1], v.prompt, r, layers);
    assert HiddenOf(e, r, layers) == Alone(v.prompt, r, layers);
  }

  /** An emptied cache has room for as many rows as it has cells. */
  lemma EmptyCacheHasRoom(cells: seq<Cell>, k: nat)
    requires forall c | 0 <= c < |cells| :: cells[c] == Cell(-1, {})
    ensures HasFreeRun(cells, k) <==> k <= |cells|
  {
    if k <= |cells| {
      assert FreeRun(cells, 0, k);
    }
  }

  class DecodeRun {
    const kv: KvCache
    var prompt: seq<int>
    var decoders: seq<Decoder>
    var step: nat

    /** The batches evaluated since the start, the prompt's first. */
    ghost var history: seq<Evaluation>

    /** `ahead` is 0 when all tokens are in the cache, and 1 between sampling and evaluating a token. */
    ghost predicate Valid(ahead: nat)
      reads this, kv
    {
      && kv.Valid() && 1 <= |decoders| <= MAX_DECODERS && prompt != []
      && AllHold(kv.cells, kv.contents, prompt, decoders, step, ahead)
    }

    constructor (size: nat, layers: nat)
      requires size > 0
      ensures fresh(kv) && kv.Valid() && |kv.cells| == size && kv.layers == layers && history == []
    {
      kv := new KvCache(size, layers);
      prompt, decoders, step, history := [], [], 0, [];
    }

    /** The first loop: live decoders take candidates in turn, and their parents' ids are copied to temporary ids. */
    method TakeCandidates(candidates: seq<Candidate>) returns (ghost parents: Parents, ghost places: seq<int>)
      requires kv.Valid() && |decoders| <= MAX_DECODERS && CandidatesOk(candidates, decoders)
      modifies this`decoders, kv`head, kv`cells
      ensures kv.Valid() && ParentsOf(parents, places, candidates, old(decoders), decoders, |old(decoders)|)
      ensures AllInTurn(candidates, places, old(decoders), step)
      ensures ParentsOk(parents) && kv.cells == CopiedOut(old(kv.cells), parents, |parents|)
    {
      hide CellOk, Copied, AllInTurn, CursorOk, IsPassed, LastLive, CandidatesOk, ParentsOf, ParentsOk, TookOver;
      CandidatesHaveParents(candidates, decoders);
      ghost var cells0, decoders0 := kv.cells, decoders;
      parents, places := [], [];
      var curC: nat, j := 0, 0;
      NobodyServed(candidates, decoders0, step);
      while j < |decoders|
        invariant j <= |decoders| == |decoders0| && |parents| == |places| == j
        invariant ParentsOf(parents, places, candidates, decoders0, decoders, j)
        invariant AllInTurn(candidates, places, decoders0, step) &&
          CursorOk(candidates, places, decoders0, curC, step)
        invariant kv.Valid() && kv.cells == CopiedOut(cells0, parents, j)
      {
        ghost var p: int, place: int, was := -1, -1, decoders;
        assert decoders[j] == decoders0[j] by {
          Unserved(parents, places, candidates, decoders0, decoders, j);
        }
        if !decoders[j].done {
          place := WrapAt(curC, |candidates|);
          ghost var at := curC;
          var cur;
          cur, curC := NextCandidate(candidates, curC, step);
          decoders := decoders[j := Decoder(cur.tokens, false)];
          kv.SeqCp(cur.decoderIdx, MAX_DECODERS + j, -1, -1);
          p := cur.decoderIdx;
          TurnTaken(candidates, places, decoders0, at, curC, step);
        } else {
          TurnSkipped(candidates, places, decoders0, curC, step);
        }
        ParentTaken(parents, p, places, place, candidates, decoders0, was, decoders, j);
        CopiedOutPrefix(cells0, parents, parents + [p], j);
        parents, places := parents + [p], places + [place];
        j := j + 1;
      }
      ParentsOfAreOk(parents, places, candidates, decoders0, decoders);
    }

    /** The second loop: live decoders drop their own cells and take over those under their temporary id. */
    method MoveIn(ghost parents: Parents)
      requires kv.Valid() && |parents| == |decoders| <= MAX_DECODERS
      requires forall j | 0 <= j < |parents| :: parents[j] < 0 <==> decoders[j].done
      modifies kv`head, kv`cells
      ensures kv.Valid() && kv.cells == CopiedBack(old(kv.cells), parents, |parents|)
    {
      ghost var out := kv.cells;
      var j := 0;
      while j < |decoders|
        invariant j <= |decoders| && kv.Valid() && kv.cells == CopiedBack(out, parents, j)
      {
        if !decoders[j].done {
          kv.SeqRm(j, -1, -1);
          kv.SeqCp(MAX_DECODERS + j, j, -1, -1);
          kv.SeqRm(MAX_DECODERS + j, -1, -1);
        }
        j := j + 1;
      }
    }

    /** Beam search: each live decoder takes the next candidate in turn, and the cache follows. `places` are the
        places of the candidates taken. */
    method Reshuffle(candidates: seq<Candidate>) returns (ghost places: seq<int>)
      requires Valid(0) && CandidatesOk(candidates, decoders)
      modifies this`decoders, kv`head, kv`cells
      ensures Valid(1) && |places| == |decoders| == |old(decoders)|
      ensures forall j | 0 <= j < |decoders| :: TookOver(candidates, places[j], old(decoders)[j], decoders[j])
      ensures AllInTurn(candidates, places, old(decoders), step)
      ensures forall j | 0 <= j < |decoders| ::
        CellsFollow(old(kv.cells), kv.cells, candidates, places[j], decoders[j], j)
    {
      hide Holds, CandidatesOk, AllInTurn, CellsFollow, CopiedOut, CopiedBack, NoTemporaryIds, CellOk;
      ghost var cells0, decoders0 := kv.cells, decoders;
      ghost var parents;
      parents, places := TakeCandidates(candidates);
      ParentsOfAreOk(parents, places, candidates, decoders0, decoders);
      MoveIn(parents);
      assert kv.cells == Reshuffled(cells0, parents);
      ReshuffledHold(cells0, kv.contents, prompt, decoders0, decoders, candidates, parents, places, step);
      AllCellsFollow(cells0, parents, places, candidates, decoders0, decoders);
    }

    /** Lets the decoders after the first one share the cells of sequence 0. */
    method CopyPrompt(count: nat)
      requires kv.Valid() && 1 <= count <= MAX_DECODERS
      requires NoTemporaryIds(kv.cells, 1) && Holds(kv.cells, kv.contents, 0, prompt)
      modifies kv`head, kv`cells
      ensures kv.Valid() && SameForZero(old(kv.cells), kv.cells) && NoTemporaryIds(kv.cells, count)
      ensures forall j | 0 <= j < count :: Holds(kv.cells, kv.contents, j, prompt)
    {
      ghost var cells0 := kv.cells;
      for j := 1 to count
        invariant kv.Valid() && SameForZero(cells0, kv.cells) && NoTemporaryIds(kv.cells, j)
        invariant forall i | 0 <= i < j :: Holds(kv.cells, kv.contents, i, prompt)
      {
        ghost var before := kv.cells;
        kv.SeqCp(0, j, -1, -1);
        CopiedHolds(before, kv.contents, j, prompt);
        forall i | 0 <= i < j
          ensures Holds(kv.cells, kv.contents, i, prompt)
        {
          assert forall c | 0 <= c < |before| :: i in before[c].seqIds <==> i in kv.cells[c].seqIds - {j};
          HoldsMoved(before, kv.cells, kv.contents, i, i, prompt);
        }
      }
    }

    /** Empties the cache, evaluates the prompt for decoder 0 and lets all decoders start from it; fails exactly if the
        prompt is longer than the cache. */
    method Start(newPrompt: seq<int>, count: nat, pad: nat) returns (ok: bool, mask: array2<bool>)
      requires kv.Valid() && newPrompt != [] && |newPrompt| < INT_MAX && 1 <= count <= MAX_DECODERS && pad > 0
      modifies this, kv
      ensures kv.Valid() && |kv.cells| == |old(kv.cells)| && fresh(mask)
      ensures ok <==> |newPrompt| <= |kv.cells|
      ensures ok ==> Valid(0) && step == 0 && prompt == newPrompt && decoders == seq(count, _ => Decoder([], false))
      ensures ok ==> |history| == 1 && history[0].prompt == newPrompt && PromptIsExact(history[0], kv.layers)
      ensures ok ==> history[0].decoders == decoders && !AllDone(decoders)
      ensures ok ==> history[0].contents == kv.contents && MaskIs(mask, history[0].rows, history[0].n, history[0].cells)
    {
      hide Holds, StoredTo, AreHidden, PromptIsExact, PromptRows, HasFreeRun, FreeRun, Placed;
      prompt, step := newPrompt, 0;
      decoders := seq(count, _ => Decoder([], false));
      kv.Clear();
      ghost var cells0, contents0 := kv.cells, kv.contents;
      var rows := PrepareLegacy(newPrompt);
      PromptPositions(newPrompt);
      EmptyCacheHasRoom(cells0, |rows|);
      var outputs;
      ok, mask, outputs := kv.Decode(rows, pad);
      if !ok {
        return;
      }
      history := [Evaluation(prompt, decoders, rows, outputs, kv.n, kv.cells, kv.contents)];
      PromptBatchIsExact(cells0, Pass(kv.cells, contents0, kv.n, kv.head, rows), kv.layers, history[0]);
      CopyPrompt(count);
      assert prompt + [] == prompt;
      assert !decoders[0].done;
    }

    /** Greedy decoding: each live decoder appends the token sampled for it. */
    method SampleGreedy(sampled: seq<int>)
      requires Valid(0) && |sampled| == |decoders|
      modifies this`decoders
      ensures Valid(1) && |decoders| == |old(decoders)|
      ensures forall j | 0 <= j < |decoders| :: decoders[j] ==
                if old(decoders)[j].done then old(decoders)[j]
                  else Decoder(old(decoders)[j].tokens + [sampled[j]], false)
    {
      ghost var before := decoders;
      for j := 0 to |decoders|
        invariant |decoders| == |before|
        invariant forall i | 0 <= i < j ::
          decoders[i] == if before[i].done then before[i] else Decoder(before[i].tokens + [sampled[i]], false)
        invariant forall i | j <= i < |decoders| :: decoders[i] == before[i]
      {
        if !decoders[j].done {
          decoders := decoders[j := Decoder(decoders[j].tokens + [sampled[j]], false)];
        }
      }
      forall j | 0 <= j < |decoders| && !decoders[j].done
        ensures decoders[j].tokens[..step] == before[j].tokens[..step]
      {
      }
    }

    /** Every live decoder offers one or more arbitrary tokens, and sorting leaves the candidates in an arbitrary
        order. */
    method GatherCandidates() returns (candidates: seq<Candidate>)
      requires !AllDone(decoders)
      ensures CandidatesOk(candidates, decoders)
      ensures forall j | 0 <= j < |decoders| && !decoders[j].done :: Offers(candidates, j)
    {
      hide Continues, Offers;
      candidates := [];
      for j := 0 to |decoders|
        invariant forall c | c in candidates :: Continues(c, decoders)
        invariant forall i | 0 <= i < j && !decoders[i].done :: Offers(candidates, i)
      {
        if !decoders[j].done {
          var first: int, more: seq<int> := *, *;
          var tokens := [first] + more;
          for k := 0 to |tokens|
            invariant forall c | c in candidates :: Continues(c, decoders)
            invariant forall i | 0 <= i < j + (if k > 0 then 1 else 0) && !decoders[i].done :: Offers(candidates, i)
          {
            ghost var before := candidates;
            candidates := candidates + [Candidate(j, decoders[j].tokens + [tokens[k]])];
            OneMoreOffer(before, candidates, decoders, j);
          }
        }
      }
      var order: seq<Candidate> := *;
      ReorderedOk(candidates, order, decoders);
      if multiset(order) == multiset(candidates) {
        candidates := order;
      }
    }

    /** One step of sampling, whichever the strategy: every live decoder continues one that was live. */
    method Sample(beamSearch: bool)
      requires Valid(0) && !AllDone(decoders)
      modifies this`decoders, kv`head, kv`cells
      ensures Valid(1) && Extend(old(decoders), decoders) && |kv.cells| == |old(kv.cells)|
    {
      hide AllHold, CandidatesOk, AllDone, AllInTurn, CellsFollow, Continues;
      ghost var before := decoders;
      if beamSearch {
        var candidates := GatherCandidates();
        ghost var places := Reshuffle(candidates);
        TakenExtend(candidates, places, before, decoders);
      } else {
        var sampled := ArbitraryTokens(|decoders|);
        SampleGreedy(sampled);
        AppendedExtend(before, decoders, sampled);
      }
    }

    /** Some decoders complete or fail after a step. */
    method Finish(rule: Rule)
      requires Valid(1)
      modifies this`decoders
      ensures Valid(1) && |decoders| == |old(decoders)|
      ensures forall j | 0 <= j < |decoders| :: decoders[j] == Finished(old(decoders)[j], step, rule)
    {
      ghost var before := decoders;
      for j := 0 to |decoders|
        invariant |decoders| == |before|
        invariant forall i | 0 <= i < j :: decoders[i] == Finished(before[i], step, rule)
        invariant forall i | j <= i < |decoders| :: decoders[i] == before[i]
      {
        if !decoders[j].done && IsOver(rule, step, decoders[j].tokens) {
          decoders := decoders[j := Decoder(decoders[j].tokens, true)];
        }
      }
    }

    /** Evaluates the last tokens of the live decoders in one batch. Each row attends to exactly the prompt and the
        tokens of its own decoder, and comes out as if they were evaluated on their own. */
    method DecodeNext(pad: nat) returns (ok: bool, mask: array2<bool>)
      requires Valid(1) && pad > 0 && |prompt| + step < INT_MAX
      modifies this`step, this`history, kv
      ensures kv.Valid() && |kv.cells| == |old(kv.cells)| && fresh(mask)
      ensures ok <==> HasFreeRun(old(kv.cells), |NextRows(decoders, |prompt| + old(step), |decoders|)|)
      ensures !ok ==> history == old(history) && step == old(step) && kv.contents == old(kv.contents)
      ensures !ok ==> kv.cells == old(kv.cells) && NoRoom(kv.cells, decoders, prompt, step)
      ensures ok ==> Valid(0) && step == old(step) + 1
      ensures ok ==> |history| == |old(history)| + 1 && history[..|old(history)|] == old(history)
      ensures ok ==> var e := history[|old(history)|];
        && e.prompt == prompt && e.decoders == decoders && e.cells == kv.cells && e.contents == kv.contents
        && NextIsExact(e, old(step), kv.layers) && MaskIs(mask, e.rows, e.n, e.cells)
    {
      hide Holds, StoredTo, AreHidden, NextIsExact, HasFreeRun, FreeRun, Placed, NextRows;
      var nPast := |prompt| + step;
      var rows := PrepareNext(decoders, nPast);
      forall r | 0 <= r < |rows|
        ensures rows[r].pos == nPast
      {
        RowOfDecoder(decoders, nPast, |decoders|, r);
      }
      ghost var cells0, contents0 := kv.cells, kv.contents;
      var outputs;
      ok, mask, outputs := kv.Decode(rows, pad);
      if !ok {
        return;
      }
      ghost var v := Evaluation(prompt, decoders, rows, outputs, kv.n, kv.cells, kv.contents);
      NextBatchIsExact(cells0, Pass(kv.cells, contents0, kv.n, kv.head, rows), kv.layers, v, step);
      history := history + [v];
      step := step + 1;
    }

    /** A whole decode loop, greedy or with beam search. Sampled tokens, the order of the candidates and the rule by
        which decoders finish are arbitrary. Every batch that was evaluated, the prompt's included, is exact, and the
        loop ends early only if all decoders are done or no slot is free for the next batch. */
    method Run(newPrompt: seq<int>, count: nat, pad: nat, nMax: nat, beamSearch: bool, rule: Rule)
      returns (started: bool)
      requires kv.Valid() && newPrompt != [] && 1 <= count <= MAX_DECODERS && pad > 0 && |newPrompt| + nMax < INT_MAX
      modifies this, kv
      ensures kv.Valid() && (started <==> |newPrompt| <= |kv.cells|)
      ensures started ==> step <= nMax && HistoryIsExact(history, newPrompt, step, kv.layers, rule)
      ensures started ==> |history| == step + 1 && history[step].contents == kv.contents
      ensures started ==> history[0].decoders == seq(count, _ => Decoder([], false))
      ensures started && step < nMax ==> Descend(history[step].decoders, decoders, step, rule)
      ensures started && step < nMax ==> AllDone(decoders) || NoRoom(kv.cells, decoders, newPrompt, step)
    {
      hide NextIsExact, PromptIsExact, AllHold, AllDone, Extend, Finished, Descend, NoRoom, HistoryIsExact;
      var mask;
      started, mask := Start(newPrompt, count, pad);
      if !started {
        return;
      }
      HistoryBegins(history, newPrompt, kv.layers, rule);
      ghost var size, first := |kv.cells|, decoders;
      for i := 0 to nMax
        invariant Valid(0) && !AllDone(decoders) && step == i && prompt == newPrompt && |kv.cells| == size
        invariant HistoryIsExact(history, newPrompt, step, kv.layers, rule) && |history| == step + 1 &&
          history[step].contents == kv.contents && history[step].decoders == decoders && history[0].decoders == first
      {
        ghost var before := decoders;
        Sample(beamSearch);
        ghost var sampled := decoders;
        Finish(rule);
        FinishedDescend(before, sampled, decoders, step, rule);
        if AllDone(decoders) {
          return;
        }
        ghost var past := history;
        var ok;
        ok, mask := DecodeNext(pad);
        if !ok {
          return;
        }
        HistoryGrows(past, history, prompt, i, kv.layers, rule);
      }
    }
  }

  /** As many arbitrary tokens as there are decoders. */
  method ArbitraryTokens(count: nat) returns (tokens: seq<int>)
    ensures |tokens| == count
  {
    tokens := [];
    for i := 0 to count
      invariant |tokens| == i
    {
      var token: int := *;
      tokens := tokens + [token];
    }
  }

  /** Some candidate continues the decoder. */
  ghost predicate Offers(candidates: seq<Candidate>, j: int) {
    exists i :: 0 <= i < |candidates| && candidates[i].decoderIdx == j
  }

  lemma OneMoreOffer(before: seq<Candidate>, after: seq<Candidate>, decoders: seq<Decoder>, j: nat)
    requires |after| == |before| + 1 && after[..|before|] == before && j < |decoders| && !decoders[j].done
    requires after[|before|].decoderIdx == j
    requires |after[|before|].tokens| == |decoders[j].tokens| + 1
    requires after[|before|].tokens[..|decoders[j].tokens|] == decoders[j].tokens
    ensures Continues(after[|before|], decoders) && Offers(after, j)
    ensures forall i :: Offers(before, i) ==> Offers(after, i)
  {
    forall i | Offers(before, i)
      ensures Offers(after, i)
    {
      var k :| 0 <= k < |before| && before[k].decoderIdx == i;
      assert after[k] == before[k];
    }
  }

  /** Candidates in another order are candidates too. */
  lemma ReorderedOk(candidates: seq<Candidate>, order: seq<Candidate>, decoders: seq<Decoder>)
    requires forall c | c in candidates :: Continues(c, decoders)
    requires !AllDone(decoders) && forall j | 0 <= j < |decoders| && !decoders[j].done :: Offers(candidates, j)
    ensures CandidatesOk(candidates, decoders)
    ensures multiset(order) == multiset(candidates) ==>
      CandidatesOk(order, decoders) && forall j | 0 <= j < |decoders| && !decoders[j].done :: Offers(order, j)
  {
    hide Continues;
    if multiset(order) == multiset(candidates) {
      assert |multiset(order)| == |multiset(candidates)|;
      forall i | 0 <= i < |order|
        ensures Continues(order[i], decoders)
      {
        assert order[i] in multiset(order);
      }
      forall j | 0 <= j < |decoders| && !decoders[j].done
        ensures Offers(order, j)
      {
        assert Offers(candidates, j);
        var i :| 0 <= i < |candidates| && candidates[i].decoderIdx == j;
        assert candidates[i] in multiset(order);
      }
    }
  }

  lemma TakenExtend(candidates: seq<Candidate>, places: seq<int>, before: seq<Decoder>, after: seq<Decoder>)
    requires CandidatesOk(candidates, before) && |places| == |before| == |after|
    requires forall j | 0 <= j < |before| :: TookOver(candidates, places[j], before[j], after[j])
    ensures Extend(before, after)
  {
    forall j | 0 <= j < |before| && !before[j].done
      ensures exists p :: IsChild(before, p, after[j].tokens)
    {
      assert TookOver(candidates, places[j], before[j], after[j]) && Continues(candidates[places[j]], before);
      assert IsChild(before, candidates[places[j]].decoderIdx, after[j].tokens);
    }
  }

  lemma AppendedExtend(before: seq<Decoder>, after: seq<Decoder>, sampled: seq<int>)
    requires |after| == |before| == |sampled|
    requires forall j | 0 <= j < |before| :: after[j] ==
               if before[j].done then before[j] else Decoder(before[j].tokens + [sampled[j]], false)
    ensures Extend(before, after)
  {
    forall j | 0 <= j < |before| && !before[j].done
      ensures exists p :: IsChild(before, p, after[j].tokens)
    {
      assert IsChild(before, j, after[j].tokens);
    }
  }

  lemma FinishedDescend(before: seq<Decoder>, sampled: seq<Decoder>, after: seq<Decoder>, step: nat, rule: Rule)
    requires Extend(before, sampled) && |after| == |sampled|
    requires forall j | 0 <= j < |after| :: after[j] == Finished(sampled[j], step, rule)
    ensures Descend(before, after, step, rule)
  {
    hide IsOver, IsChild;
    forall j | 0 <= j < |before|
      ensures after[j] == Finished(sampled[j], step, rule)
      ensures before[j].done ==> after[j] == before[j]
    {
    }
  }

  /** The next batch has no free slot. */
  ghost predicate NoRoom(cells: seq<Cell>, decoders: seq<Decoder>, prompt: seq<int>, step: nat) {
    HaveTokens(decoders) && !HasFreeRun(cells, |NextRows(decoders, |prompt| + step, |decoders|)|)
  }

  /** The prompt's batch and `steps` batches of next tokens, all exact; from each to the next every live decoder
      continues one that was live. */
  ghost predicate HistoryIsExact(history: seq<Evaluation>, prompt: seq<int>, steps: nat, layers: nat, rule: Rule) {
    && |history| == steps + 1 && (forall t | 0 <= t <= steps :: history[t].prompt == prompt)
    && PromptIsExact(history[0], layers)
    && forall t: nat | 0 < t <= steps ::
         NextIsExact(history[t], t - 1, layers) &&
           Descend(history[t - 1].decoders, history[t].decoders, t - 1, rule)
  }

  lemma HistoryBegins(history: seq<Evaluation>, prompt: seq<int>, layers: nat, rule: Rule)
    requires |history| == 1 && history[0].prompt == prompt && PromptIsExact(history[0], layers)
    ensures HistoryIsExact(history, prompt, 0, layers, rule)
  {
  }

  lemma HistoryGrows(past: seq<Evaluation>, history: seq<Evaluation>, prompt: seq<int>, steps: nat, layers: nat,
                     rule: Rule)
    requires HistoryIsExact(past, prompt, steps, layers, rule) && |history| == |past| + 1 && history[..|past|] == past
    requires history[|past|].prompt == prompt && NextIsExact(history[|past|], steps, layers)
    requires Descend(past[steps].decoders, history[|past|].decoders, steps, rule)
    ensures HistoryIsExact(history, prompt, steps + 1, layers, rule)
  {
    hide PromptIsExact, NextIsExact, Descend;
    assert forall t | 0 <= t <= steps :: history[t] == history[..|past|][t];
  }

  lemma PromptPositions(prompt: seq<int>)
    requires |prompt| < INT_MAX
    ensures |PromptRows(prompt)| == |prompt| && forall r | 0 <= r < |prompt| :: 0 <= PromptRows(prompt)[r].pos < INT_MAX
  {
  }

  /** Nothing has changed for sequence 0, nor for which cells are in use. */
  ghost predicate SameForZero(before: seq<Cell>, after: seq<Cell>) {
    && |after| == |before|
    && forall c | 0 <= c < |before| ::
         && after[c].pos == before[c].pos && (0 in after[c].seqIds <==> 0 in before[c].seqIds)
         && (after[c].seqIds == {} <==> before[c].seqIds == {})
  }

  ghost predicate MaskIs(mask: array2<bool>, rows: seq<Row>, n: nat, cells: seq<Cell>)
    reads mask
  {
    && mask.Length0 == |rows| && mask.Length1 == n <= |cells|
    && forall r, i | 0 <= r < |rows| && 0 <= i < n :: mask[r, i] <==> !Attends(rows[r], cells[i])
  }

  method PrepareLegacy(prompt: seq<int>) returns (rows: seq<Row>)
    ensures rows == PromptRows(prompt)
  {
    rows := [];
    for i := 0 to |prompt|
      invariant |rows| == i && forall k | 0 <= k < i :: rows[k] == Row(prompt[k], k, 0)
    {
      rows := rows + [Row(prompt[i], i, 0)];
    }
  }

  method PrepareNext(decoders: seq<Decoder>, nPast: nat) returns (rows: seq<Row>)
    requires HaveTokens(decoders)
    ensures rows == NextRows(decoders, nPast, |decoders|)
  {
    rows := [];
    for j := 0 to |decoders|
      invariant rows == NextRows(decoders, nPast, j)
    {
      if decoders[j].done {
        continue;
      }
      rows := rows + [Row(decoders[j].tokens[|decoders[j].tokens| - 1], nPast, j)];
    }
  }
}
