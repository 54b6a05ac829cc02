/**
  Rounds whose read of the active outage fails (service.go, updateOutage): they are skipped without touching the
  counter of failures. This says exactly when an outage is opened, or left unopened, against what the
  rounds themselves showed.
 */
module MissedReads {
  import opened Basics
  import opened Outage
  import opened OutageBlocks

  // A round with targets, and whether the active outage could be read in it.
  datatype Probe = Probe(failed: bool, read: bool)

  function ProbeOf(r: Round): Probe { Probe(true !in r.results, !r.faults.read) }

  function Probes(inputs: seq<Input>): seq<Probe> {
    if inputs == [] then []
    else
      var last := inputs[|inputs| - 1];
      Probes(inputs[..|inputs| - 1]) + (if HasTargets(last) then [ProbeOf(last.round)] else [])
  }

  // The last n rounds all failed.
  predicate LastFailed(ps: seq<Probe>, n: nat) {
    n <= |ps| && forall i :: |ps| - n <= i < |ps| ==> ps[i].failed
  }

  // One of the last n rounds succeeded, but went unread.
  predicate MissedSuccess(ps: seq<Probe>, n: nat) {
    exists i :: 0 <= i < |ps| && |ps| - n <= i && !ps[i].read && !ps[i].failed
  }

  // The rounds read since the last success that was read.
  function ReadRun(ps: seq<Probe>): (n: nat)
    ensures n <= |ps|
  {
    if ps == [] then 0
    else
      var front, last := ReadRun(ps[..|ps| - 1]), ps[|ps| - 1];
      if !last.read then front else if last.failed then front + 1 else 0
  }

  lemma ReadRunAppend(ps: seq<Probe>, p: Probe)
    ensures ReadRun(ps + [p]) == if !p.read then ReadRun(ps) else if p.failed then ReadRun(ps) + 1 else 0
  {
    assert (ps + [p])[..|ps|] == ps;
  }

  lemma ProbesAppend(inputs: seq<Input>, input: Input)
    ensures Probes(inputs + [input]) == Probes(inputs) + if HasTargets(input) then [ProbeOf(input.round)] else []
  {
    assert (inputs + [input])[..|inputs|] == inputs;
  }

  // What was read in as many rounds as that, unread ones included, was failure.
  lemma {:induction false} ReadRunFailed(ps: seq<Probe>, n: nat)
    requires n <= ReadRun(ps)
    ensures forall i :: |ps| - n <= i < |ps| && ps[i].read ==> ps[i].failed
  {
    if n > 0 {
      ReadRunFailed(ps[..|ps| - 1], n - 1);
    }
  }

  lemma GenuineExactly(ps: seq<Probe>, n: nat)
    requires n <= ReadRun(ps)
    ensures LastFailed(ps, n) <==> !MissedSuccess(ps, n)
  {
    ReadRunFailed(ps, n);
  }

  // The counter never counts more than was read; without restarts it counts just that.
  lemma {:induction false} CounterIsReadRun(inputs: seq<Input>)
    ensures Run(inputs).failCount <= ReadRun(Probes(inputs))
    ensures (forall i :: 0 <= i < |inputs| ==> inputs[i].Latency?) ==> Run(inputs).failCount == ReadRun(Probes(inputs))
  {
    if inputs != [] {
      var front, last := inputs[..|inputs| - 1], inputs[|inputs| - 1];
      CounterIsReadRun(front);
      CounterStep(Run(front), Probes(front), last);
    }
  }

  lemma CounterStep(s: State, ps: seq<Probe>, input: Input)
    ensures var after := ps + if HasTargets(input) then [ProbeOf(input.round)] else [];
      && (s.failCount <= ReadRun(ps) ==> Step(s, input).failCount <= ReadRun(after))
      && (s.failCount == ReadRun(ps) && input.Latency? ==> Step(s, input).failCount == ReadRun(after))
  {
    if HasTargets(input) {
      ReadRunAppend(ps, ProbeOf(input.round));
    } else {
      assert ps + [] == ps;
    }
  }

  // Over every run, with changing thresholds, failing calls and restarts: when a round opens an outage, as many rounds
  // as its threshold really failed in a row if and only if no success among those went unread.
  lemma OpeningIsGenuineExactly(inputs: seq<Input>, round: Round)
    requires |Run(inputs + [Latency(round)]).rows| > |Run(inputs).rows|
    ensures var ps := Probes(inputs + [Latency(round)]);
      0 < round.threshold <= |ps| && (LastFailed(ps, round.threshold) <==> !MissedSuccess(ps, round.threshold))
  {
    var longer := inputs + [Latency(round)];
    assert longer[..|inputs|] == inputs;
    CounterIsReadRun(longer);
    OpeningReachesThreshold(Run(inputs), round);
    GenuineExactly(Probes(longer), round.threshold);
  }

  lemma OpeningReachesThreshold(s: State, round: Round)
    requires |Check(s, round).rows| > |s.rows|
    ensures 0 < round.threshold <= Check(s, round).failCount
  {
  }

  lemma TrailingAppend(seen: seq<Seen>, x: Seen)
    ensures Trailing(seen + [x]) == if x.failed then Trailing(seen) + 1 else 0
  {
    assert (seen + [x])[..|seen|] == seen;
  }

  lemma {:induction false} TrailingIsReadRun(inputs: seq<Input>)
    ensures Trailing(Observed(inputs)) == ReadRun(Probes(inputs))
  {
    if inputs != [] {
      var front, last := inputs[..|inputs| - 1], inputs[|inputs| - 1];
      TrailingIsReadRun(front);
      ObservedStep(Observed(front), Probes(front), last);
    }
  }

  lemma ObservedStep(seen: seq<Seen>, ps: seq<Probe>, input: Input)
    requires Trailing(seen) == ReadRun(ps)
    ensures Trailing(seen + if HasTargets(input) && !input.round.faults.read then [SeenAs(input.round)] else [])
         == ReadRun(ps + if HasTargets(input) then [ProbeOf(input.round)] else [])
  {
    assert seen + [] == seen && ps + [] == ps;
    if HasTargets(input) {
      ReadRunAppend(ps, ProbeOf(input.round));
      if !input.round.faults.read { TrailingAppend(seen, SeenAs(input.round)); }
    }
  }

  // With one threshold and working writes an outage is open exactly while that many rounds were read since the last
  // success that was read.
  lemma OpenExactlyByReads(inputs: seq<Input>, threshold: nat)
    requires threshold >= 1 && Steady(inputs, threshold)
    ensures HasOpen(Run(inputs).rows) <==> ReadRun(Probes(inputs)) >= threshold
  {
    OutagesEqualBlocks(inputs, threshold);
    TrailingIsReadRun(inputs);
  }

  // How many of the last n rounds went unread.
  function Unread(ps: seq<Probe>, n: nat): nat {
    if n == 0 || ps == [] then 0
    else Unread(ps[..|ps| - 1], n - 1) + if ps[|ps| - 1].read then 0 else 1
  }

  // In a row of failures the unread ones are what the reads miss.
  lemma {:induction false} ReadAndUnreadAddUp(ps: seq<Probe>, n: nat)
    requires LastFailed(ps, n)
    ensures ReadRun(ps) + Unread(ps, n) == n + ReadRun(ps[..|ps| - n])
  {
    if n == 0 {
      assert ps[..|ps|] == ps;
    } else {
      var front := ps[..|ps| - 1];
      ReadAndUnreadAddUp(front, n - 1);
      assert front[..|front| - (n - 1)] == ps[..|ps| - n];
    }
  }

  // Then the stored state errs in just two ways. It is open although the last threshold rounds did not all fail,
  // if and only if enough rounds were read and a success among the last ones was missed; and it is not open although
  // they did, if and only if more of them went unread than had been read just before.
  lemma StatusIsRightExactly(inputs: seq<Input>, threshold: nat)
    requires threshold >= 1 && Steady(inputs, threshold)
    ensures var ps := Probes(inputs);
      (HasOpen(Run(inputs).rows) && !LastFailed(ps, threshold))
        <==> (ReadRun(ps) >= threshold && MissedSuccess(ps, threshold))
    ensures var ps := Probes(inputs);
      (!HasOpen(Run(inputs).rows) && LastFailed(ps, threshold))
      <==> (LastFailed(ps, threshold) && Unread(ps, threshold) > ReadRun(ps[..|ps| - threshold]))
  {
    var ps := Probes(inputs);
    OpenExactlyByReads(inputs, threshold);
    if ReadRun(ps) >= threshold { GenuineExactly(ps, threshold); }
    if LastFailed(ps, threshold) { ReadAndUnreadAddUp(ps, threshold); }
  }

  // If every read works it always does.
  lemma {:induction false} AllRead(inputs: seq<Input>)
    requires EveryReadWorks(inputs)
    ensures forall i :: 0 <= i < |Probes(inputs)| ==> Probes(inputs)[i].read
  {
    if inputs != [] {
      var front := inputs[..|inputs| - 1];
      assert EveryReadWorks(front);
      AllRead(front);
    }
  }

  lemma {:induction false} NoneUnread(ps: seq<Probe>, n: nat)
    requires forall i :: 0 <= i < |ps| ==> ps[i].read
    ensures Unread(ps, n) == 0
  {
    if n > 0 && ps != [] { NoneUnread(ps[..|ps| - 1], n - 1); }
  }

  lemma StatusIsRightIfAllRead(inputs: seq<Input>, threshold: nat)
    requires threshold >= 1 && Steady(inputs, threshold) && EveryReadWorks(inputs)
    ensures HasOpen(Run(inputs).rows) <==> LastFailed(Probes(inputs), threshold)
  {
    AllRead(inputs);
    StatusIsRightExactly(inputs, threshold);
    NoneUnread(Probes(inputs), threshold);
  }

  // ----- Both ways of being wrong happen, at threshold two. -----

  function OneTarget(reached: bool, readFails: bool): Input {
    Latency(Round([reached], 2, 0, Faults(readFails, false, false)))
  }

  lemma OneTargetProbe(reached: bool, readFails: bool)
    ensures HasTargets(OneTarget(reached, readFails))
      && ProbeOf(OneTarget(reached, readFails).round) == Probe(!reached, !readFails)
  {
    assert reached in [reached] by { assert [reached][0] == reached; }
  }

  lemma AppendOneTarget(inputs: seq<Input>, reached: bool, readFails: bool)
    ensures Probes(inputs + [OneTarget(reached, readFails)]) == Probes(inputs) + [Probe(!reached, !readFails)]
    ensures ReadRun(Probes(inputs + [OneTarget(reached, readFails)]))
         == if readFails then ReadRun(Probes(inputs)) else if !reached then ReadRun(Probes(inputs)) + 1 else 0
  {
    OneTargetProbe(reached, readFails);
    ProbesAppend(inputs, OneTarget(reached, readFails));
    ReadRunAppend(Probes(inputs), Probe(!reached, !readFails));
  }

  // A failure, a missed success and a failure open an outage.
  lemma MissedSuccessOpensOutage() returns (inputs: seq<Input>)
    ensures Steady(inputs, 2) && HasOpen(Run(inputs).rows) && !LastFailed(Probes(inputs), 2)
  {
    inputs := [];
    AppendOneTarget(inputs, false, false);
    inputs := inputs + [OneTarget(false, false)];
    AppendOneTarget(inputs, true, true);
    inputs := inputs + [OneTarget(true, true)];
    AppendOneTarget(inputs, false, false);
    inputs := inputs + [OneTarget(false, false)];
    OpenExactlyByReads(inputs, 2);
    assert !Probes(inputs)[1].failed;
  }

  // Two failures of which one went unread do not.
  lemma MissedFailureOpensNone() returns (inputs: seq<Input>)
    ensures Steady(inputs, 2) && !HasOpen(Run(inputs).rows) && LastFailed(Probes(inputs), 2)
  {
    inputs := [];
    AppendOneTarget(inputs, false, false);
    inputs := inputs + [OneTarget(false, false)];
    AppendOneTarget(inputs, false, true);
    inputs := inputs + [OneTarget(false, true)];
    OpenExactlyByReads(inputs, 2);
    assert Probes(inputs) == [Probe(true, true), Probe(true, false)];
  }

  lemma FourProbes(a: Probe, b: Probe, c: Probe, d: Probe)
    requires !b.failed && !b.read && c.failed && d.failed
    ensures var ps := [] + [a] + [b] + [c] + [d]; LastFailed(ps, 2) && MissedSuccess(ps, 3)
  {
    var ps := [] + [a] + [b] + [c] + [d];
    assert ps[1] == b;
  }

  lemma ProbesOfFour(x: Input, y: Input, u: Input, z: Input)
    requires x == OneTarget(false, false) && y == OneTarget(true, true) && u == OneTarget(false, true) && z == x
    ensures var inputs := [] + [x] + [y] + [u] + [z];
      Probes(inputs) == [] + [Probe(true, true)] + [Probe(false, false)] + [Probe(true, false)] + [Probe(true, true)]
      && ReadRun(Probes(inputs)) == 2
  {
    AppendOneTarget([], false, false);
    AppendOneTarget([] + [x], true, true);
    AppendOneTarget([] + [x] + [y], false, true);
    AppendOneTarget([] + [x] + [y] + [u], false, false);
  }

  // A success missed before the last rounds does no harm, though the counted failures reach back behind it: a
  // failure, a missed success, an unread failure and a failure open an outage, and the last two rounds did
  // fail.
  lemma EarlierMissedSuccessIsHarmless() returns (inputs: seq<Input>)
    ensures Steady(inputs, 2) && HasOpen(Run(inputs).rows) && LastFailed(Probes(inputs), 2)
      && MissedSuccess(Probes(inputs), 3)
  {
    var x, y, u := OneTarget(false, false), OneTarget(true, true), OneTarget(false, true);
    inputs := [] + [x] + [y] + [u] + [x];
    ProbesOfFour(x, y, u, x);
    OpenExactlyByReads(inputs, 2);
    FourProbes(Probe(true, true), Probe(false, false), Probe(true, false), Probe(true, true));
  }
}
