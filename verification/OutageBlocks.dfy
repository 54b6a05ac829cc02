/**
  What the stored outages mean: with one threshold and working writes they are, in order, exactly the
  maximal blocks of consecutive failed rounds that are long enough.
 */
module OutageBlocks {
  import opened Basics
  import opened Outage

  // A round the monitor saw: it had targets and the active outage could be read.
  datatype Seen = Seen(failed: bool, at: int)

  function SeenAs(r: Round): Seen {
    Seen(true !in r.results, r.now)
  }

  function Observed(inputs: seq<Input>): seq<Seen> {
    if inputs == [] then []
    else
      var last := inputs[|inputs| - 1];
      Observed(inputs[..|inputs| - 1])
      + (if HasTargets(last) && !last.round.faults.read then [SeenAs(last.round)] else [])
  }

  predicate HasTargets(input: Input) {
    input.Latency? && input.round.results != []
  }

  // Rounds start..end of the observed ones.
  datatype Block = Block(start: nat, end: nat)

  // A block of failed rounds that no longer block contains.
  ghost predicate Maximal(seen: seq<Seen>, b: Block) {
    && b.start < b.end <= |seen|
    && (forall i :: b.start <= i < b.end ==> seen[i].failed)
    && (b.start > 0 ==> !seen[b.start - 1].failed)
    && (b.end < |seen| ==> !seen[b.end].failed)
  }

  function Trailing(seen: seq<Seen>): (r: nat)
    ensures r <= |seen|
    ensures forall i :: |seen| - r <= i < |seen| ==> seen[i].failed
    ensures r < |seen| ==> !seen[|seen| - r - 1].failed
  {
    if seen == [] || !seen[|seen| - 1].failed then 0 else Trailing(seen[..|seen| - 1]) + 1
  }

  // The long blocks, found by walking the rounds once; LongBlocksAreAll says what they are.
  // After n rounds, r of them trailing failures, one more round either leaves the blocks
  // alone, starts a block or lengthens the last one.
  function Extend(blocks: seq<Block>, r: nat, n: nat, failed: bool, threshold: nat): seq<Block>
    requires r <= n
  {
    if !failed || r + 1 < threshold then blocks
    else if r + 1 == threshold || blocks == [] then blocks + [Block(n - r, n + 1)]
    else blocks[..|blocks| - 1] + [Block(blocks[|blocks| - 1].start, n + 1)]
  }

  function LongBlocks(seen: seq<Seen>, threshold: nat): seq<Block> {
    if seen == [] then []
    else
      var before := seen[..|seen| - 1];
      Extend(LongBlocks(before, threshold), Trailing(before), |before|, seen[|seen| - 1].failed, threshold)
  }

  // Blocks in order and apart from each other.
  ghost predicate InOrder(blocks: seq<Block>) {
    forall k, l :: 0 <= k < l < |blocks| ==> blocks[k].end < blocks[l].start
  }

  // Only the last block can reach the end of the n rounds, and it does iff enough of them fail.
  ghost predicate Shape(blocks: seq<Block>, r: nat, n: nat, threshold: nat) {
    && r <= n && threshold >= 1 && InOrder(blocks)
    && (forall k :: 0 <= k < |blocks| ==> blocks[k].start + threshold <= blocks[k].end)
    && (forall k :: 0 <= k < |blocks| - 1 ==> blocks[k].end < n - r)
    && (if r >= threshold
        then blocks != [] && blocks[|blocks| - 1] == Block(n - r, n)
        else blocks != [] ==> blocks[|blocks| - 1].end < n - r)
  }

  lemma ExtendShape(blocks: seq<Block>, r: nat, n: nat, failed: bool, threshold: nat)
    requires Shape(blocks, r, n, threshold)
    ensures Shape(Extend(blocks, r, n, failed, threshold), if failed then r + 1 else 0, n + 1, threshold)
  {
  }

  lemma ExtendMembers(blocks: seq<Block>, r: nat, n: nat, failed: bool, threshold: nat, b: Block)
    requires Shape(blocks, r, n, threshold)
    ensures b in Extend(blocks, r, n, failed, threshold)
       <==> ((b in blocks && (b.end < n || !failed)) || (failed && r + 1 >= threshold && b == Block(n - r, n + 1)))
  {
    if failed && r >= threshold {
      var init := blocks[..|blocks| - 1];
      assert blocks == init + [Block(n - r, n)];
      assert b in blocks <==> b in init || b == Block(n - r, n);
    }
  }

  // One more round; the results are named so that nothing is unfolded here.
  lemma ShapeOfNext(blocks: seq<Block>, r: nat, n: nat, failed: bool, threshold: nat, next: seq<Block>, s: nat)
    requires Shape(blocks, r, n, threshold)
    requires next == Extend(blocks, r, n, failed, threshold) && s == if failed then r + 1 else 0
    ensures Shape(next, s, n + 1, threshold)
  {
    ExtendShape(blocks, r, n, failed, threshold);
  }

  lemma {:induction false} LongBlocksShape(seen: seq<Seen>, threshold: nat)
    requires threshold >= 1
    ensures Shape(LongBlocks(seen, threshold), Trailing(seen), |seen|, threshold)
  {
    if seen != [] {
      var before := seen[..|seen| - 1];
      LongBlocksShape(before, threshold);
      LongBlocksStep(before, seen, threshold);
      ShapeOfNext(LongBlocks(before, threshold), Trailing(before), |before|, seen[|before|].failed, threshold,
                  LongBlocks(seen, threshold), Trailing(seen));
    }
  }

  lemma LongBlocksStep(before: seq<Seen>, seen: seq<Seen>, threshold: nat)
    requires seen != [] && before == seen[..|seen| - 1]
    ensures LongBlocks(seen, threshold)
      == Extend(LongBlocks(before, threshold), Trailing(before), |before|, seen[|before|].failed, threshold)
    ensures Trailing(seen) == if seen[|before|].failed then Trailing(before) + 1 else 0
  {
  }

  lemma MaximalBefore(before: seq<Seen>, x: Seen, b: Block)
    requires b.end <= |before|
    ensures Maximal(before + [x], b) <==> Maximal(before, b) && (b.end < |before| || !x.failed)
  {
    assert forall i :: 0 <= i < |before| ==> (before + [x])[i] == before[i];
  }

  lemma MaximalAtEnd(before: seq<Seen>, x: Seen, b: Block)
    requires b.end == |before| + 1
    ensures Maximal(before + [x], b) <==> x.failed && b.start == |before| - Trailing(before)
  {
    var n, r, seen := |before|, Trailing(before), before + [x];
    assert forall i :: 0 <= i < n ==> seen[i] == before[i];
    if Maximal(seen, b) {
      assert seen[n].failed;
      assert b.start >= n - r;
      assert b.start <= n - r;
    }
  }

  lemma MaximalAppend(before: seq<Seen>, x: Seen, b: Block)
    ensures Maximal(before + [x], b)
       <==> ((Maximal(before, b) && (b.end < |before| || !x.failed))
             || (x.failed && b == Block(|before| - Trailing(before), |before| + 1)))
  {
    if b.end <= |before| {
      MaximalBefore(before, x, b);
    } else if b.end == |before| + 1 {
      MaximalAtEnd(before, x, b);
    }
  }

  // Exactly the maximal blocks of at least `threshold` failed rounds.
  lemma {:induction false} LongBlocksAreAll(seen: seq<Seen>, threshold: nat, b: Block)
    requires threshold >= 1
    ensures b in LongBlocks(seen, threshold) <==> Maximal(seen, b) && b.end - b.start >= threshold
  {
    if seen != [] {
      var before, x := seen[..|seen| - 1], seen[|seen| - 1];
      assert seen == before + [x];
      LongBlocksShape(before, threshold);
      LongBlocksAreAll(before, threshold, b);
      ExtendMembers(LongBlocks(before, threshold), Trailing(before), |before|, x.failed, threshold, b);
      MaximalAppend(before, x, b);
    }
  }

  // The row of a block: opened by the round that reached the threshold, closed by the first
  // success after the block.
  function RowOf(seen: seq<Seen>, threshold: nat, b: Block, id: nat): Row
    requires threshold >= 1 && b.start + threshold <= b.end <= |seen|
  {
    Row(id, seen[b.start + threshold - 1].at, if b.end < |seen| then Some(seen[b.end].at) else None)
  }

  ghost predicate RowsAre(rows: seq<Row>, seen: seq<Seen>, threshold: nat, blocks: seq<Block>) {
    && threshold >= 1
    && |rows| == |blocks|
    && forall k :: 0 <= k < |blocks| ==>
         && blocks[k].start + threshold <= blocks[k].end <= |seen|
         && rows[k] == RowOf(seen, threshold, blocks[k], k + 1)
  }

  // One threshold throughout, no restart, and no failing write.
  ghost predicate Steady(inputs: seq<Input>, threshold: nat) {
    forall i :: 0 <= i < |inputs| ==>
      && inputs[i].Latency? && inputs[i].round.threshold == threshold
      && !inputs[i].round.faults.insert && !inputs[i].round.faults.close
  }

  lemma RowsRunWithBlocks(rows: seq<Row>, seen: seq<Seen>, threshold: nat, blocks: seq<Block>)
    requires RowsAre(rows, seen, threshold, blocks)
    ensures forall k :: 0 <= k < |rows| ==> (rows[k].ended.None? <==> blocks[k].end == |seen|)
  {
    forall k | 0 <= k < |rows| ensures rows[k].ended.None? <==> blocks[k].end == |seen| {
      assert rows[k] == RowOf(seen, threshold, blocks[k], k + 1);
    }
  }

  lemma OnlyLastReachesEnd(blocks: seq<Block>, r: nat, n: nat, threshold: nat)
    requires Shape(blocks, r, n, threshold)
    ensures forall k :: 0 <= k < |blocks| - 1 ==> blocks[k].end != n
    ensures r >= threshold <==> blocks != [] && blocks[|blocks| - 1].end == n
  {
  }

  lemma OpenExactlyInsideBlock(rows: seq<Row>, seen: seq<Seen>, threshold: nat, blocks: seq<Block>)
    requires RowsAre(rows, seen, threshold, blocks) && Shape(blocks, Trailing(seen), |seen|, threshold)
    ensures HasOpen(rows) <==> Trailing(seen) >= threshold
    ensures forall i :: 0 <= i < |rows| - 1 ==> rows[i].ended.Some?
    ensures HasOpen(rows) ==> rows[|rows| - 1].ended.None?
  {
    RowsRunWithBlocks(rows, seen, threshold, blocks);
    OnlyLastReachesEnd(blocks, Trailing(seen), |seen|, threshold);
    if Trailing(seen) >= threshold {
      assert rows[|rows| - 1].ended.None?;
    }
  }

  // What one observed round does to the rows.
  function NextRows(rows: seq<Row>, r: nat, x: Seen, threshold: nat): seq<Row> {
    if !x.failed then Closed(rows, x.at)
    else if r + 1 >= threshold then Opened(rows, x.at)
    else rows
  }

  lemma RowsExtend(rows: seq<Row>, seen: seq<Seen>, x: Seen, threshold: nat, blocks: seq<Block>)
    requires RowsAre(rows, seen, threshold, blocks) && Shape(blocks, Trailing(seen), |seen|, threshold)
    ensures RowsAre(NextRows(rows, Trailing(seen), x, threshold), seen + [x], threshold,
                    Extend(blocks, Trailing(seen), |seen|, x.failed, threshold))
  {
    OpenExactlyInsideBlock(rows, seen, threshold, blocks);
    ShapeEnds(blocks, Trailing(seen), |seen|, threshold);
    if !x.failed {
      SuccessCloses(rows, seen, x, threshold, blocks);
    } else {
      FailureExtends(rows, seen, x, threshold, blocks);
    }
  }

  lemma ShapeEnds(blocks: seq<Block>, r: nat, n: nat, threshold: nat)
    requires Shape(blocks, r, n, threshold)
    ensures r >= threshold ==> LastRuns(blocks, n) && Extend(blocks, r, n, true, threshold) == Longer(blocks, n)
    ensures r < threshold ==> AllEnded(blocks, n)
  {
  }

  ghost predicate AllEnded(blocks: seq<Block>, n: nat) {
    forall k :: 0 <= k < |blocks| ==> blocks[k].end < n
  }

  ghost predicate LastRuns(blocks: seq<Block>, n: nat) {
    blocks != [] && blocks[|blocks| - 1].end == n && AllEnded(blocks[..|blocks| - 1], n)
  }

  function Longer(blocks: seq<Block>, n: nat): seq<Block>
    requires blocks != []
  {
    blocks[..|blocks| - 1] + [Block(blocks[|blocks| - 1].start, n + 1)]
  }

  lemma FailureExtends(rows: seq<Row>, seen: seq<Seen>, x: Seen, threshold: nat, blocks: seq<Block>)
    requires RowsAre(rows, seen, threshold, blocks) && x.failed
    requires HasOpen(rows) <==> Trailing(seen) >= threshold
    requires Trailing(seen) >= threshold ==>
               LastRuns(blocks, |seen|) && Extend(blocks, Trailing(seen), |seen|, true, threshold)
                 == Longer(blocks, |seen|)
    requires Trailing(seen) < threshold ==> AllEnded(blocks, |seen|)
    ensures RowsAre(NextRows(rows, Trailing(seen), x, threshold), seen + [x], threshold,
                    Extend(blocks, Trailing(seen), |seen|, true, threshold))
  {
    if Trailing(seen) >= threshold {
      LastRowRuns(rows, seen, x, threshold, blocks);
      assert NextRows(rows, Trailing(seen), x, threshold) == rows;
    } else if Trailing(seen) + 1 == threshold {
      FailureStarts(rows, seen, x, threshold, blocks);
    } else {
      EndedRowsKept(rows, seen, x, threshold, blocks);
    }
  }

  lemma SuccessCloses(rows: seq<Row>, seen: seq<Seen>, x: Seen, threshold: nat, blocks: seq<Block>)
    requires RowsAre(rows, seen, threshold, blocks) && !x.failed
    ensures RowsAre(Closed(rows, x.at), seen + [x], threshold, blocks)
  {
    forall k | 0 <= k < |blocks| ensures Closed(rows, x.at)[k] == RowOf(seen + [x], threshold, blocks[k], k + 1) {
      assert rows[k] == RowOf(seen, threshold, blocks[k], k + 1);
    }
  }

  lemma EndedRowsKept(rows: seq<Row>, seen: seq<Seen>, x: Seen, threshold: nat, blocks: seq<Block>)
    requires RowsAre(rows, seen, threshold, blocks)
    requires AllEnded(blocks, |seen|)
    ensures RowsAre(rows, seen + [x], threshold, blocks)
  {
    forall k | 0 <= k < |blocks| ensures rows[k] == RowOf(seen + [x], threshold, blocks[k], k + 1) {
      assert rows[k] == RowOf(seen, threshold, blocks[k], k + 1);
    }
  }

  lemma RowsAppend(rows: seq<Row>, seen: seq<Seen>, threshold: nat, blocks: seq<Block>, row: Row, b: Block)
    requires RowsAre(rows, seen, threshold, blocks)
    requires b.start + threshold <= b.end <= |seen| && row == RowOf(seen, threshold, b, |rows| + 1)
    ensures RowsAre(rows + [row], seen, threshold, blocks + [b])
  {
  }

  lemma FailureLengthens(rows: seq<Row>, seen: seq<Seen>, x: Seen, threshold: nat, init: seq<Block>, last: Block)
    requires RowsAre(rows, seen, threshold, init + [last])
    requires AllEnded(init, |seen|)
    requires last.end == |seen|
    ensures RowsAre(rows, seen + [x], threshold, init + [Block(last.start, |seen| + 1)])
  {
    var first, row, blocks := rows[..|init|], rows[|init|], init + [last];
    assert rows == first + [row];
    assert blocks[|init|] == last && row == RowOf(seen, threshold, last, |first| + 1);
    forall k | 0 <= k < |init|
      ensures init[k].start + threshold <= init[k].end <= |seen|
      ensures first[k] == RowOf(seen, threshold, init[k], k + 1)
    {
      assert init[k] == blocks[k] && first[k] == rows[k];
    }
    EndedRowsKept(first, seen, x, threshold, init);
    RowsAppend(first, seen + [x], threshold, init, row, Block(last.start, |seen| + 1));
  }

  lemma LastRowRuns(rows: seq<Row>, seen: seq<Seen>, x: Seen, threshold: nat, blocks: seq<Block>)
    requires RowsAre(rows, seen, threshold, blocks) && LastRuns(blocks, |seen|)
    ensures RowsAre(rows, seen + [x], threshold, Longer(blocks, |seen|))
  {
    var last := |blocks| - 1;
    assert blocks == blocks[..last] + [blocks[last]];
    FailureLengthens(rows, seen, x, threshold, blocks[..last], blocks[last]);
  }

  lemma FailureStarts(rows: seq<Row>, seen: seq<Seen>, x: Seen, threshold: nat, blocks: seq<Block>)
    requires RowsAre(rows, seen, threshold, blocks) && !HasOpen(rows)
    requires AllEnded(blocks, |seen|)
    requires threshold <= |seen| + 1
    ensures RowsAre(Opened(rows, x.at), seen + [x], threshold, blocks + [Block(|seen| + 1 - threshold, |seen| + 1)])
  {
    EndedRowsKept(rows, seen, x, threshold, blocks);
    RowsAppend(rows, seen + [x], threshold, blocks, Row(|rows| + 1, x.at, None),
               Block(|seen| + 1 - threshold, |seen| + 1));
  }

  lemma RoundIsNextRows(s: State, r: Round, threshold: nat)
    requires threshold >= 1 && r.threshold == threshold && r.results != []
    requires !r.faults.read && !r.faults.insert && !r.faults.close
    requires HasOpen(s.rows) <==> s.failCount >= threshold
    ensures Check(s, r).rows == NextRows(s.rows, s.failCount, SeenAs(r), threshold)
  {
    if true in r.results && !HasOpen(s.rows) {
      assert Closed(s.rows, r.now) == s.rows;
    }
  }

  ghost predicate Follows(s: State, seen: seq<Seen>, threshold: nat) {
    s.failCount == Trailing(seen) && RowsAre(s.rows, seen, threshold, LongBlocks(seen, threshold))
  }

  lemma SeenFollows(rows: seq<Row>, seen: seq<Seen>, x: Seen, threshold: nat)
    requires RowsAre(rows, seen, threshold, LongBlocks(seen, threshold))
    ensures RowsAre(NextRows(rows, Trailing(seen), x, threshold), seen + [x], threshold,
                    LongBlocks(seen + [x], threshold))
    ensures HasOpen(rows) <==> Trailing(seen) >= threshold
    ensures Trailing(seen + [x]) == if x.failed then Trailing(seen) + 1 else 0
  {
    var blocks := LongBlocks(seen, threshold);
    LongBlocksShape(seen, threshold);
    OpenExactlyInsideBlock(rows, seen, threshold, blocks);
    RowsExtend(rows, seen, x, threshold, blocks);
    assert (seen + [x])[..|seen|] == seen;
    LongBlocksStep(seen, seen + [x], threshold);
  }

  lemma RoundFollows(s: State, seen: seq<Seen>, r: Round, threshold: nat)
    requires threshold >= 1 && Follows(s, seen, threshold)
    requires r.threshold == threshold && r.results != [] && !r.faults.read && !r.faults.insert && !r.faults.close
    ensures Follows(Check(s, r), seen + [SeenAs(r)], threshold)
  {
    SeenFollows(s.rows, seen, SeenAs(r), threshold);
    RoundIsNextRows(s, r, threshold);
  }

  lemma {:induction false} RowsFollowBlocks(inputs: seq<Input>, threshold: nat)
    requires threshold >= 1 && Steady(inputs, threshold)
    ensures Follows(Run(inputs), Observed(inputs), threshold)
  {
    if inputs != [] {
      var before, r := inputs[..|inputs| - 1], inputs[|inputs| - 1].round;
      RowsFollowBlocks(before, threshold);
      if r.results != [] && !r.faults.read {
        RoundFollows(Run(before), Observed(before), r, threshold);
      } else {
        assert Observed(before) + [] == Observed(before);
      }
    }
  }

  // The main result: for every run with one threshold the stored rows are, in order, the rows of
  // all the maximal long blocks and of nothing else, and a row is open iff the run ends inside
  // such a block (then it is the last row).
  lemma OutagesEqualBlocks(inputs: seq<Input>, threshold: nat)
    requires threshold >= 1 && Steady(inputs, threshold)
    ensures var rows, seen, blocks := Run(inputs).rows, Observed(inputs), LongBlocks(Observed(inputs), threshold);
      && RowsAre(rows, seen, threshold, blocks) && InOrder(blocks)
      && (forall b :: b in blocks <==> Maximal(seen, b) && b.end - b.start >= threshold)
      && (HasOpen(rows) <==> Trailing(seen) >= threshold)
      && (HasOpen(rows) ==> rows[|rows| - 1].ended.None?)
  {
    var seen := Observed(inputs);
    RowsFollowBlocks(inputs, threshold);
    LongBlocksShape(seen, threshold);
    OpenExactlyInsideBlock(Run(inputs).rows, seen, threshold, LongBlocks(seen, threshold));
    forall b ensures b in LongBlocks(seen, threshold) <==> Maximal(seen, b) && b.end - b.start >= threshold {
      LongBlocksAreAll(seen, threshold, b);
    }
  }

  // Every round with targets, seen or not.
  function WithTargets(inputs: seq<Input>): seq<Seen> {
    if inputs == [] then []
    else
      var last := inputs[|inputs| - 1];
      WithTargets(inputs[..|inputs| - 1]) + (if HasTargets(last) then [SeenAs(last.round)] else [])
  }

  ghost predicate EveryReadWorks(inputs: seq<Input>) {
    forall i :: 0 <= i < |inputs| && HasTargets(inputs[i]) ==> !inputs[i].round.faults.read
  }

  // The rounds seen are all rounds with targets exactly when no read of the active outage fails; MissedReads says
  // what a failed read does to the outages.
  lemma {:induction false} ObservedIsEverythingExactly(inputs: seq<Input>)
    ensures |Observed(inputs)| <= |WithTargets(inputs)|
    ensures Observed(inputs) == WithTargets(inputs) <==> EveryReadWorks(inputs)
  {
    if inputs != [] {
      var before := inputs[..|inputs| - 1];
      ObservedIsEverythingExactly(before);
      assert EveryReadWorks(inputs) ==> EveryReadWorks(before);
      var last, x, y := inputs[|inputs| - 1], Observed(before), WithTargets(before);
      if HasTargets(last) && !last.round.faults.read {
        var seen := SeenAs(last.round);
        assert x == (x + [seen])[..|x|] && y == (y + [seen])[..|y|];
        assert EveryReadWorks(before) ==> EveryReadWorks(inputs);
      } else if !HasTargets(last) {
        assert x + [] == x && y + [] == y;
        assert EveryReadWorks(before) ==> EveryReadWorks(inputs);
      }
    }
  }
}
