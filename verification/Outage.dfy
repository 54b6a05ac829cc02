/**
  Outage detection (service.go, checkLatency and updateOutage; summary.go; the outage table of
  store.go): an in-memory counter of failed rounds, persistent rows, and a stream of notifications.
 */
module Outage {
  import opened Basics

  datatype Row = Row(id: nat, started: int, ended: Option<int>)

  datatype Notice = Critical(at: int) | Recovery(at: int)

  datatype State = State(rows: seq<Row>, failCount: nat, notices: seq<Notice>)

  const FRESH := State([], 0, [])

  // Which store calls of a round fail; a failed call has no effect.
  datatype Faults = Faults(read: bool, insert: bool, close: bool)

  const NO_FAULTS := Faults(false, false, false)

  // One latency round: whether each target was reached, the threshold in force, and the time.
  datatype Round = Round(results: seq<bool>, threshold: int, now: int, faults: Faults)

  function ShouldOpenOutage(consecutiveFailures: int, threshold: int, active: bool): bool {
    !active && threshold > 0 && consecutiveFailures >= threshold
  }

  function ShouldCloseOutage(anySuccess: bool, active: bool): bool {
    active && anySuccess
  }

  predicate HasOpen(rows: seq<Row>) {
    exists i :: 0 <= i < |rows| && rows[i].ended.None?
  }

  // SELECT COUNT(*) ... WHERE ended_at IS NULL, then INSERT.
  function Opened(rows: seq<Row>, now: int): seq<Row> {
    if HasOpen(rows) then rows else rows + [Row(|rows| + 1, now, None)]
  }

  // UPDATE ... WHERE ended_at IS NULL.
  function Closed(rows: seq<Row>, now: int): seq<Row> {
    seq(|rows|, i requires 0 <= i < |rows| => if rows[i].ended.None? then rows[i].(ended := Some(now)) else rows[i])
  }

  function Update(s: State, threshold: int, allFailed: bool, anySuccess: bool, now: int, faults: Faults): State {
    if faults.read then s
    else
      var active := HasOpen(s.rows);
      var count := if allFailed then s.failCount + 1 else 0;
      var afterOpen :=
        if ShouldOpenOutage(count, threshold, active) && !faults.insert
        then State(Opened(s.rows, now), count, s.notices + [Critical(now)])
        else s.(failCount := count);
      if ShouldCloseOutage(anySuccess, active) && !faults.close
      then afterOpen.(rows := Closed(afterOpen.rows, now), notices := afterOpen.notices + [Recovery(now)])
      else afterOpen
  }

  function Check(s: State, r: Round): State {
    if r.results == [] then s
    else Update(s, r.threshold, true !in r.results, true in r.results, r.now, r.faults)
  }

  class Monitor {
    var rows: seq<Row>
    var failCount: nat
    var notices: seq<Notice>

    function View(): State
      reads this
    {
      State(rows, failCount, notices)
    }

    constructor (stored: seq<Row>, sent: seq<Notice>)
      ensures View() == State(stored, 0, sent)
    {
      rows, failCount, notices := stored, 0, sent;
    }

    method ActiveOutage(fails: bool) returns (r: Result<bool, ()>)
      ensures r == if fails then Err(()) else Ok(HasOpen(rows))
    {
      if fails {
        return Err(());
      }
      for i := 0 to |rows|
        invariant forall j :: 0 <= j < i ==> rows[j].ended.Some?
      {
        if rows[i].ended.None? {
          return Ok(true);
        }
      }
      return Ok(false);
    }

    method OpenOutage(started: int, fails: bool) returns (ok: bool)
      modifies this`rows
      ensures ok == !fails
      ensures rows == if fails then old(rows) else Opened(old(rows), started)
    {
      if fails {
        return false;
      }
      var active := ActiveOutage(false);
      if active.value {
        return true;
      }
      rows := rows + [Row(|rows| + 1, started, None)];
      return true;
    }

    method CloseActiveOutage(ended: int, fails: bool) returns (ok: bool)
      modifies this`rows
      ensures ok == !fails
      ensures rows == if fails then old(rows) else Closed(old(rows), ended)
    {
      if fails {
        return false;
      }
      var i := 0;
      while i < |rows|
        invariant 0 <= i <= |rows| == |old(rows)|
        invariant rows == Closed(old(rows), ended)[..i] + old(rows)[i..]
      {
        if rows[i].ended.None? {
          rows := rows[i := rows[i].(ended := Some(ended))];
        }
        i := i + 1;
      }
      return true;
    }

    method UpdateOutage(threshold: int, allFailed: bool, anySuccess: bool, now: int, faults: Faults)
      modifies this
      ensures View() == Update(old(View()), threshold, allFailed, anySuccess, now, faults)
    {
      var active := ActiveOutage(faults.read);
      if active.Err? {
        return;
      }
      if allFailed {
        failCount := failCount + 1;
      } else {
        failCount := 0;
      }
      if ShouldOpenOutage(failCount, threshold, active.value) {
        var ok := OpenOutage(now, faults.insert);
        if ok {
          notices := notices + [Critical(now)];
        }
      }
      if ShouldCloseOutage(anySuccess, active.value) {
        var ok := CloseActiveOutage(now, faults.close);
        if ok {
          notices := notices + [Recovery(now)];
        }
      }
    }

    method CheckLatency(round: Round)
      modifies this
      ensures View() == Check(old(View()), round)
    {
      if |round.results| == 0 {
        return;
      }
      var allFailed, anySuccess := true, false;
      for i := 0 to |round.results|
        invariant View() == old(View())
        invariant anySuccess == (true in round.results[..i])
        invariant allFailed == !anySuccess
      {
        if round.results[i] {
          allFailed := false;
          anySuccess := true;
        }
      }
      assert round.results[..|round.results|] == round.results;
      UpdateOutage(round.threshold, allFailed, anySuccess, round.now, round.faults);
    }
  }

  // ----- Runs. -----

  // A restart keeps the rows and what was sent, and loses the counter.
  datatype Input = Latency(round: Round) | Restart

  function Step(s: State, input: Input): State {
    match input
    case Latency(round) => Check(s, round)
    case Restart => s.(failCount := 0)
  }

  function Run(inputs: seq<Input>): State {
    if inputs == [] then FRESH else Step(Run(inputs[..|inputs| - 1]), inputs[|inputs| - 1])
  }

  // ----- Safety, over every run. -----

  function NoticesOf(rows: seq<Row>): seq<Notice> {
    if rows == [] then []
    else
      var last := rows[|rows| - 1];
      NoticesOf(rows[..|rows| - 1]) + [Critical(last.started)]
        + (if last.ended.Some? then [Recovery(last.ended.value)] else [])
  }

  // Only the last row may be open, ids count up from one, and the notices are exactly one
  // critical per row and one recovery per closed row, in row order.
  ghost predicate Inv(s: State) {
    && (forall i :: 0 <= i < |s.rows| - 1 ==> s.rows[i].ended.Some?)
    && (forall i :: 0 <= i < |s.rows| ==> s.rows[i].id == i + 1)
    && s.notices == NoticesOf(s.rows)
  }

  lemma OpenedKeepsInv(s: State, now: int)
    requires Inv(s) && !HasOpen(s.rows)
    ensures Inv(s.(rows := Opened(s.rows, now), notices := s.notices + [Critical(now)]))
  {
    assert Opened(s.rows, now)[..|s.rows|] == s.rows;
  }

  lemma ClosedIsLast(s: State, now: int)
    requires Inv(s) && HasOpen(s.rows)
    ensures s.rows[|s.rows| - 1].ended.None?
    ensures Closed(s.rows, now) == s.rows[..|s.rows| - 1] + [s.rows[|s.rows| - 1].(ended := Some(now))]
  {
  }

  lemma ClosedKeepsInv(s: State, now: int)
    requires Inv(s) && HasOpen(s.rows)
    ensures Inv(s.(rows := Closed(s.rows, now), notices := s.notices + [Recovery(now)]))
  {
    ClosedIsLast(s, now);
    var closed := Closed(s.rows, now);
    assert closed[..|closed| - 1] == s.rows[..|s.rows| - 1];
  }

  lemma StepKeepsInv(s: State, input: Input)
    requires Inv(s)
    ensures Inv(Step(s, input))
  {
    if input.Latency? && input.round.results != [] {
      var r := input.round;
      if HasOpen(s.rows) {
        ClosedKeepsInv(s, r.now);
      } else {
        OpenedKeepsInv(s, r.now);
      }
    }
  }

  lemma {:induction false} RunKeepsInv(inputs: seq<Input>)
    ensures Inv(Run(inputs))
  {
    if inputs != [] {
      RunKeepsInv(inputs[..|inputs| - 1]);
      StepKeepsInv(Run(inputs[..|inputs| - 1]), inputs[|inputs| - 1]);
    }
  }

  // Criticals and recoveries strictly alternate, the (2k)-th notice is the start of row k and
  // the (2k+1)-th its end.
  lemma NoticesAlternate(inputs: seq<Input>)
    ensures var s := Run(inputs);
      && |s.notices| == 2 * |s.rows| - (if HasOpen(s.rows) then 1 else 0)
      && (forall k :: 0 <= k < |s.rows| ==> s.notices[2 * k] == Critical(s.rows[k].started))
      && (forall k :: 0 <= k < |s.rows| && s.rows[k].ended.Some? ==>
            2 * k + 1 < |s.notices| && s.notices[2 * k + 1] == Recovery(s.rows[k].ended.value))
  {
    RunKeepsInv(inputs);
    NoticePositions(Run(inputs).rows);
  }

  lemma {:induction false} NoticePositions(rows: seq<Row>)
    requires forall i :: 0 <= i < |rows| - 1 ==> rows[i].ended.Some?
    ensures |NoticesOf(rows)| == 2 * |rows| - (if HasOpen(rows) then 1 else 0)
    ensures forall k ::
      0 <= k < |rows| ==> 2 * k < |NoticesOf(rows)| && NoticesOf(rows)[2 * k] == Critical(rows[k].started)
    ensures forall k :: 0 <= k < |rows| && rows[k].ended.Some? ==>
              2 * k + 1 < |NoticesOf(rows)| && NoticesOf(rows)[2 * k + 1] == Recovery(rows[k].ended.value)
  {
    if rows != [] {
      var rest := rows[..|rows| - 1];
      NoticePositions(rest);
      assert !HasOpen(rest);
      assert |NoticesOf(rest)| == 2 * |rest|;
      forall k | 0 <= k < |rest|
        ensures NoticesOf(rows)[2 * k] == Critical(rows[k].started)
        ensures NoticesOf(rows)[2 * k + 1] == Recovery(rows[k].ended.value)
      {
        assert rest[k] == rows[k];
      }
    }
  }

  // Rows already written keep their id and start; closed rows never change; at most one row is open.
  lemma HistoryIsKept(inputs: seq<Input>, input: Input)
    ensures var before, after := Run(inputs).rows, Run(inputs + [input]).rows;
      && |before| <= |after| <= |before| + 1
      && (forall i :: 0 <= i < |before| ==> after[i].id == before[i].id && after[i].started == before[i].started)
      && (forall i :: 0 <= i < |before| && before[i].ended.Some? ==> after[i] == before[i])
      && (forall i, j :: 0 <= i < j < |after| ==> after[i].ended.Some? || after[j].ended.Some?)
  {
    assert (inputs + [input])[..|inputs|] == inputs;
    RunKeepsInv(inputs);
    RunKeepsInv(inputs + [input]);
  }

  predicate InputBy(input: Input, now: int) {
    input.Latency? ==> input.round.now <= now
  }

  // The clock never runs backwards.
  ghost predicate ClockOk(inputs: seq<Input>) {
    forall i, j :: 0 <= i < j < |inputs| && inputs[j].Latency? ==> InputBy(inputs[i], inputs[j].round.now)
  }

  // Each outage ends no earlier than it starts, and the next one starts no earlier than that.
  ghost predicate Ordered(rows: seq<Row>) {
    && (forall i :: 0 <= i < |rows| && rows[i].ended.Some? ==> rows[i].started <= rows[i].ended.value)
    && (forall i, j :: 0 <= i < j < |rows| && rows[i].ended.Some? ==> rows[i].ended.value <= rows[j].started)
  }

  ghost predicate RowsBy(rows: seq<Row>, now: int) {
    forall i :: 0 <= i < |rows| ==> rows[i].started <= now && (rows[i].ended.Some? ==> rows[i].ended.value <= now)
  }

  lemma {:induction false} RowsAreBy(inputs: seq<Input>, now: int)
    requires forall i :: 0 <= i < |inputs| ==> InputBy(inputs[i], now)
    ensures RowsBy(Run(inputs).rows, now)
  {
    if inputs != [] {
      RowsAreBy(inputs[..|inputs| - 1], now);
      assert InputBy(inputs[|inputs| - 1], now);
    }
  }

  lemma {:induction false} OutagesAreOrdered(inputs: seq<Input>)
    requires ClockOk(inputs)
    ensures Ordered(Run(inputs).rows)
  {
    if inputs != [] {
      var before, input := inputs[..|inputs| - 1], inputs[|inputs| - 1];
      OutagesAreOrdered(before);
      RunKeepsInv(before);
      if input.Latency? {
        RowsAreBy(before, input.round.now);
        var s := Run(before);
        if HasOpen(s.rows) {
          ClosedIsLast(s, input.round.now);
        }
      }
    }
  }
}
