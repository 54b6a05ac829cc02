/**
  When an outage is opened and closed (service.go, updateOutage; summary.go, ShouldOpenOutage and ShouldCloseOutage),
  said of the inputs alone: over every run, with restarts, failing calls and thresholds that change from round to
  round. An opening whose row could not be inserted is made up for by a later round.
 */
module Openings {
  import opened Basics
  import opened Outage

  // A round that was read and reached none of its targets.
  ghost predicate ReadFailure(input: Input) {
    input.Latency? && input.round.results != [] && !input.round.faults.read
    && forall k :: 0 <= k < |input.round.results| ==> !input.round.results[k]
  }

  // A round that was read and reached a target.
  ghost predicate ReadSuccess(input: Input) {
    input.Latency? && !input.round.faults.read && exists k :: 0 <= k < |input.round.results| && input.round.results[k]
  }

  // The failures read since the last success that was read, or the last restart.
  ghost function Counted(inputs: seq<Input>): set<nat> {
    set i: nat | i < |inputs| && ReadFailure(inputs[i])
                 && forall j :: i < j < |inputs| ==> inputs[j] != Restart && !ReadSuccess(inputs[j])
  }

  lemma CountedAppend(inputs: seq<Input>, input: Input)
    ensures Counted(inputs + [input])
      == if input == Restart || ReadSuccess(input) then {}
         else if ReadFailure(input) then Counted(inputs) + {|inputs|}
         else Counted(inputs)
  {
    var longer := inputs + [input];
    assert longer[|inputs|] == input;
    forall i: nat | i < |inputs|
      ensures i in Counted(longer) <==> i in Counted(inputs) && input != Restart && !ReadSuccess(input)
    {
      assert longer[i] == inputs[i];
      assert forall j :: i < j < |inputs| ==> longer[j] == inputs[j];
    }
    assert |inputs| in Counted(longer) <==> ReadFailure(input);
  }

  lemma CounterStep(s: State, input: Input)
    ensures Step(s, input).failCount
      == if input == Restart || ReadSuccess(input) then 0
         else if ReadFailure(input) then s.failCount + 1
         else s.failCount
  {
  }

  lemma {:induction false} CounterExactly(inputs: seq<Input>)
    ensures Run(inputs).failCount == |Counted(inputs)|
  {
    if inputs != [] {
      var front, last := inputs[..|inputs| - 1], inputs[|inputs| - 1];
      assert inputs == front + [last];
      CounterExactly(front);
      CounterStep(Run(front), last);
      CountedAppend(front, last);
    }
  }

  // A row without an end.
  ghost predicate SomeOpen(rows: seq<Row>) { exists i :: 0 <= i < |rows| && rows[i].ended.None? }

  ghost predicate Opens(inputs: seq<Input>, input: Input) {
    !SomeOpen(Run(inputs).rows) && ReadFailure(input) && !input.round.faults.insert
    && 0 < input.round.threshold <= |Counted(inputs + [input])|
  }

  ghost predicate Closes(inputs: seq<Input>, input: Input) {
    SomeOpen(Run(inputs).rows) && ReadSuccess(input) && !input.round.faults.close
  }

  lemma RowsStep(s: State, input: Input)
    requires Inv(s)
    ensures var after, n := Step(s, input), |s.rows|;
      after.rows
      == if !SomeOpen(s.rows) && ReadFailure(input) && !input.round.faults.insert
            && 0 < input.round.threshold <= after.failCount
         then s.rows + [Row(n + 1, input.round.now, None)]
         else if SomeOpen(s.rows) && ReadSuccess(input) && !input.round.faults.close
         then s.rows[..n - 1] + [s.rows[n - 1].(ended := Some(input.round.now))]
         else s.rows
  {
    if SomeOpen(s.rows) && input.Latency? { ClosedIsLast(s, input.round.now); }
  }

  // The whole of it: an input adds a row, or ends the last one, or leaves the rows alone, by what it is, whether a
  // row was open, and how many failures were read.
  lemma RowsExactly(inputs: seq<Input>, input: Input)
    ensures var before, after := Run(inputs).rows, Run(inputs + [input]).rows;
      if Opens(inputs, input) then after == before + [Row(|before| + 1, input.round.now, None)]
      else if Closes(inputs, input)
      then before != [] && before[|before| - 1].ended.None?
           && after == before[..|before| - 1] + [before[|before| - 1].(ended := Some(input.round.now))]
      else after == before
  {
    assert (inputs + [input])[..|inputs|] == inputs;
    RunKeepsInv(inputs);
    CounterExactly(inputs + [input]);
    RowsStep(Run(inputs), input);
    if SomeOpen(Run(inputs).rows) { ClosedIsLast(Run(inputs), 0); }
  }

  // So an insert that fails delays the outage to the next failure that is read, and does not lose it.
  lemma FailedInsertIsMadeUpFor(inputs: seq<Input>, round: Round, next: Round)
    requires !SomeOpen(Run(inputs).rows) && ReadFailure(Latency(round)) && round.faults.insert
    requires 0 < round.threshold <= |Counted(inputs + [Latency(round)])|
    requires ReadFailure(Latency(next)) && !next.faults.insert && next.threshold == round.threshold
    ensures var rows := Run(inputs).rows;
      Run(inputs + [Latency(round)] + [Latency(next)]).rows == rows + [Row(|rows| + 1, next.now, None)]
  {
    var longer := inputs + [Latency(round)];
    RowsExactly(inputs, Latency(round));
    RowsExactly(longer, Latency(next));
    CountedAppend(longer, Latency(next));
    assert |inputs| + 1 !in Counted(longer);
  }
}
