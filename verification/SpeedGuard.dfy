/**
  The speed-test guard (service.go, TriggerSpeedTest and SpeedRunning): any number of calls, each spawning a run when
  accepted, interleave freely; the mutex is explicit, so every action between Lock and Unlock is a step of its own.
 */
module SpeedGuard {
  import opened Basics

  // What the calls and runs leave behind, besides the flag: accepted calls, runs whose settings loaded or
  // failed to, insert attempts, and runs that cleared the flag, each in order.
  datatype Record = Record(
    active: bool,
    accepted: seq<nat>,
    loaded: seq<nat>,
    unloaded: set<nat>,
    inserts: seq<nat>,
    finished: seq<nat>)

  const NOTHING := Record(false, [], [], {}, [], [])

  function Claim(r: Record, a: nat): Record {
    if r.active then r else r.(active := true, accepted := r.accepted + [a])
  }

  function Load(r: Record, a: nat, ok: bool): Record {
    if ok then r.(loaded := r.loaded + [a]) else r.(unloaded := r.unloaded + {a})
  }

  function Insert(r: Record, a: nat): Record { r.(inserts := r.inserts + [a]) }

  function Clear(r: Record, a: nat): Record { r.(active := false, finished := r.finished + [a]) }

  // The code itself, as one thread runs it.
  class Service {
    var speedActive: bool
    var accepted: seq<nat>
    var loaded: seq<nat>
    var unloaded: set<nat>
    var inserts: seq<nat>
    var finished: seq<nat>

    function View(): Record
      reads this
    {
      Record(speedActive, accepted, loaded, unloaded, inserts, finished)
    }

    constructor ()
      ensures View() == NOTHING
    {
      speedActive, accepted, loaded, unloaded, inserts, finished := false, [], [], {}, [], [];
    }

    method SpeedRunning() returns (running: bool)
      ensures running == View().active
    {
      return speedActive;
    }

    // Up to the go statement; true is returned exactly if the run was started.
    method TriggerSpeedTest(a: nat) returns (started: bool)
      modifies this
      ensures started == !old(View()).active
      ensures View() == Claim(old(View()), a)
    {
      if speedActive {
        return false;
      }
      speedActive := true;
      accepted := accepted + [a];
      return true;
    }

    // The goroutine.
    method RunSpeedTest(a: nat, settingsLoad: bool)
      modifies this
      ensures View() == Clear(if settingsLoad then Insert(Load(old(View()), a, true), a)
                              else Load(old(View()), a, false), a)
    {
      if !settingsLoad {
        unloaded := unloaded + {a};
      } else {
        loaded := loaded + [a];
        inserts := inserts + [a];
      }
      speedActive := false;
      finished := finished + [a];
    }
  }

  // ----- The machine. -----

  datatype Phase =
    // TriggerSpeedTest
    | Wanting | Holding | Refusing | Refused | Claimed | Launching
    // its goroutine; ok tells whether the settings loaded
    | Loading | Testing | Storing | Emitting
    | WantClear(ok: bool) | Clearing(ok: bool) | Cleared(ok: bool) | Done(ok: bool)
    // SpeedRunning
    | Asking | Reading | Answering(running: bool) | Answered(running: bool)

  predicate Holds(p: Phase) {
    p.Holding? || p.Refusing? || p.Claimed? || p.Clearing? || p.Cleared? || p.Reading? || p.Answering?
  }

  // From taking the flag until clearing it.
  predicate InProgress(p: Phase) {
    p.Claimed? || p.Launching? || p.Loading? || p.Testing? || p.Storing? || p.Emitting? || p.WantClear? || p.Clearing?
  }

  predicate Settled(p: Phase) { p.Cleared? || p.Done? }

  predicate SettingsLoaded(p: Phase) {
    p.Testing? || p.Storing? || p.Emitting? || ((p.WantClear? || p.Clearing? || p.Cleared? || p.Done?) && p.ok)
  }

  predicate SettingsFailed(p: Phase) { (p.WantClear? || p.Clearing? || p.Cleared? || p.Done?) && !p.ok }

  datatype State = State(record: Record, holder: Option<nat>, phase: map<nat, Phase>)

  const START := State(NOTHING, None, map[])

  // A call begins, or the thread a does its next action; ok is what loading the settings returns.
  datatype Step = Call(a: nat) | Ask(a: nat) | Act(a: nat, ok: bool)

  function Goes(s: State, a: nat, p: Phase): State { s.(phase := s.phase[a := p]) }

  function Acquire(s: State, a: nat, p: Phase): State {
    if s.holder.None? then Goes(s, a, p).(holder := Some(a)) else s
  }

  function Release(s: State, a: nat, p: Phase): State { Goes(s, a, p).(holder := None) }

  function Next(s: State, step: Step): State {
    match step
    case Call(a) => if a in s.phase then s else Goes(s, a, Wanting)
    case Ask(a) => if a in s.phase then s else Goes(s, a, Asking)
    case Act(a, ok) => if a in s.phase then Acts(s, a, s.phase[a], ok) else s
  }

  function Acts(s: State, a: nat, p: Phase, ok: bool): State {
    match p
    case Wanting => Acquire(s, a, Holding)
    case Holding => Goes(s, a, if s.record.active then Refusing else Claimed).(record := Claim(s.record, a))
    case Refusing => Release(s, a, Refused)
    case Claimed => Release(s, a, Launching)
    case Launching => Goes(s, a, Loading)
    case Loading => Goes(s, a, if ok then Testing else WantClear(false)).(record := Load(s.record, a, ok))
    case Testing => Goes(s, a, Storing)
    case Storing => Goes(s, a, Emitting).(record := Insert(s.record, a))
    case Emitting => Goes(s, a, WantClear(true))
    case WantClear(loaded) => Acquire(s, a, Clearing(loaded))
    case Clearing(loaded) => Goes(s, a, Cleared(loaded)).(record := Clear(s.record, a))
    case Cleared(loaded) => Release(s, a, Done(loaded))
    case Asking => Acquire(s, a, Reading)
    case Reading => Goes(s, a, Answering(s.record.active))
    case Answering(running) => Release(s, a, Answered(running))
    case _ => s
  }

  function Run(steps: seq<Step>): State {
    if steps == [] then START else Next(Run(steps[..|steps| - 1]), steps[|steps| - 1])
  }

  // ----- The invariant, thread by thread. -----

  // The run in progress, if any.
  function Current(r: Record): Option<nat> {
    if r.active && r.accepted != [] then Some(r.accepted[|r.accepted| - 1]) else None
  }

  function OneOrNone(run: Option<nat>): seq<nat> { if run.Some? then [run.value] else [] }

  ghost predicate ThreadOk(s: State, a: nat) {
    if a in s.phase
    then
      var p := s.phase[a];
      && (Holds(p) <==> s.holder == Some(a))
      && (InProgress(p) <==> Current(s.record) == Some(a))
      && (a in s.record.accepted <==> InProgress(p) || Settled(p))
      && (a in s.record.loaded <==> SettingsLoaded(p))
      && (a in s.record.unloaded <==> SettingsFailed(p))
      && (p.Refusing? ==> s.record.active)
      && (p.Answering? ==> p.running == s.record.active)
    else
      s.holder != Some(a) && a !in s.record.accepted && a !in s.record.loaded && a !in s.record.unloaded
  }

  predicate Distinct(xs: seq<nat>) { forall i, j :: 0 <= i < j < |xs| ==> xs[i] != xs[j] }

  // Exactly the accepted runs but the one in progress have finished, in the same order.
  predicate GuardOk(r: Record) {
    (r.active ==> r.accepted != []) && r.accepted == r.finished + OneOrNone(Current(r)) && Distinct(r.accepted)
  }

  function Without(runs: seq<nat>, out: set<nat>): seq<nat> {
    if runs == [] then []
    else
      var front, last := runs[..|runs| - 1], runs[|runs| - 1];
      Without(front, out) + if last in out then [] else [last]
  }

  predicate AboutToStore(p: Phase) { p.Testing? || p.Storing? }

  function LoadedByCurrent(s: State): seq<nat> {
    var run := Current(s.record);
    if run.Some? && run.value in s.phase && SettingsLoaded(s.phase[run.value]) then [run.value] else []
  }

  function OwedByCurrent(s: State): seq<nat> {
    var run := Current(s.record);
    if run.Some? && run.value in s.phase && AboutToStore(s.phase[run.value]) then [run.value] else []
  }

  // The settings loaded for all finished runs but the unlucky ones, and perhaps for the one in progress;
  // each of those made its insert attempt, unless it is just about to.
  predicate StoresOk(s: State) {
    && s.record.loaded == Without(s.record.finished, s.record.unloaded) + LoadedByCurrent(s)
    && s.record.loaded == s.record.inserts + OwedByCurrent(s)
  }

  ghost predicate ThreadsOk(s: State) { forall a: nat :: ThreadOk(s, a) }

  ghost predicate Inv(s: State) {
    GuardOk(s.record) && StoresOk(s) && ThreadsOk(s)
  }

  // ----- Every step keeps it. -----

  lemma {:induction false} WithoutOther(runs: seq<nat>, out: set<nat>, a: nat)
    requires a !in runs
    ensures Without(runs, out + {a}) == Without(runs, out)
  {
    if runs != [] {
      WithoutOther(runs[..|runs| - 1], out, a);
    }
  }

  lemma WithoutOneMore(runs: seq<nat>, out: set<nat>, a: nat)
    ensures Without(runs + [a], out) == Without(runs, out) + if a in out then [] else [a]
  {
    assert (runs + [a])[..|runs|] == runs;
  }

  lemma ClaimKeepsThread(s: State, a: nat, b: nat)
    requires a in s.phase && s.phase[a] == Holding && ThreadOk(s, a) && ThreadOk(s, b) && GuardOk(s.record)
    ensures ThreadOk(Acts(s, a, Holding, true), b)
  {
    var r := s.record;
    if !r.active {
      assert Claim(r, a).accepted[|r.accepted|] == a;
    }
  }

  lemma LoadKeepsThread(s: State, a: nat, ok: bool, b: nat)
    requires a in s.phase && s.phase[a] == Loading && ThreadOk(s, a) && ThreadOk(s, b)
    ensures ThreadOk(Acts(s, a, Loading, ok), b)
  {
  }

  lemma ClearKeepsThread(s: State, a: nat, b: nat)
    requires a in s.phase && s.phase[a].Clearing? && ThreadOk(s, a) && ThreadOk(s, b)
    ensures ThreadOk(Acts(s, a, s.phase[a], true), b)
  {
  }

  // The steps that only take or give back the mutex.
  predicate LockStep(p: Phase) {
    p.Wanting? || p.WantClear? || p.Asking? || p.Refusing? || p.Claimed? || p.Cleared? || p.Answering?
  }

  lemma LockStepKeepsThread(s: State, a: nat, p: Phase, ok: bool, b: nat)
    requires a in s.phase && s.phase[a] == p && ThreadOk(s, a) && ThreadOk(s, b)
    requires LockStep(p)
    ensures ThreadOk(Acts(s, a, p, ok), b)
  {
  }

  lemma PlainStepKeepsThread(s: State, a: nat, p: Phase, ok: bool, b: nat)
    requires a in s.phase && s.phase[a] == p && ThreadOk(s, a) && ThreadOk(s, b)
    requires !LockStep(p) && !p.Holding? && !p.Loading? && !p.Clearing?
    ensures ThreadOk(Acts(s, a, p, ok), b)
  {
  }

  lemma NewThread(s: State, step: Step, b: nat)
    requires !step.Act? && ThreadOk(s, b)
    ensures ThreadOk(Next(s, step), b)
  {
  }

  lemma StepKeepsThreads(s: State, step: Step)
    requires ThreadsOk(s) && GuardOk(s.record)
    ensures ThreadsOk(Next(s, step))
  {
    forall b: nat ensures ThreadOk(Next(s, step), b) {
      assert ThreadOk(s, b);
      if !step.Act? {
        NewThread(s, step, b);
      } else if step.a in s.phase {
        var p := s.phase[step.a];
        assert ThreadOk(s, step.a);
        if p.Holding? {
          ClaimKeepsThread(s, step.a, b);
        } else if p.Loading? {
          LoadKeepsThread(s, step.a, step.ok, b);
        } else if p.Clearing? {
          ClearKeepsThread(s, step.a, b);
        } else if LockStep(p) {
          LockStepKeepsThread(s, step.a, p, step.ok, b);
        } else {
          PlainStepKeepsThread(s, step.a, p, step.ok, b);
        }
      }
    }
  }

  lemma StepKeepsGuard(s: State, step: Step)
    requires ThreadsOk(s) && GuardOk(s.record)
    ensures GuardOk(Next(s, step).record)
  {
    if step.Act? && step.a in s.phase {
      var a := step.a;
      assert ThreadOk(s, a);
    }
  }

  // A step of a thread that is not the one in progress leaves what that one has loaded and stored.
  lemma LoadingOwesNothing(s: State, a: nat)
    requires a in s.phase && s.phase[a] == Loading && ThreadOk(s, a) && GuardOk(s.record)
    ensures LoadedByCurrent(s) == [] && OwedByCurrent(s) == [] && s.record.accepted == s.record.finished + [a]
  {
  }

  lemma LastIsNew(accepted: seq<nat>, finished: seq<nat>, a: nat)
    requires Distinct(accepted) && accepted == finished + [a]
    ensures a !in finished
  {
    assert forall i :: 0 <= i < |finished| ==> finished[i] == accepted[i];
    assert accepted[|finished|] == a;
  }

  lemma LoadKeepsStores(s: State, a: nat, ok: bool)
    requires a in s.phase && s.phase[a] == Loading && ThreadOk(s, a) && GuardOk(s.record) && StoresOk(s)
    ensures StoresOk(Acts(s, a, Loading, ok))
  {
    LoadingOwesNothing(s, a);
    LastIsNew(s.record.accepted, s.record.finished, a);
    WithoutOther(s.record.finished, s.record.unloaded, a);
    var t := Acts(s, a, Loading, ok);
    if ok {
      assert LoadedByCurrent(t) == [a] && OwedByCurrent(t) == [a];
    } else {
      assert LoadedByCurrent(t) == [] && OwedByCurrent(t) == [];
    }
  }

  lemma SettledOwesNothing(s: State, a: nat)
    requires a in s.phase && s.phase[a].Clearing? && ThreadOk(s, a)
    ensures OwedByCurrent(s) == [] && LoadedByCurrent(s) == if a in s.record.unloaded then [] else [a]
  {
  }

  predicate IdleStoresOk(r: Record) { r.loaded == Without(r.finished, r.unloaded) && r.loaded == r.inserts }

  lemma IdleStores(s: State)
    requires !s.record.active
    ensures StoresOk(s) <==> IdleStoresOk(s.record)
  {
    assert LoadedByCurrent(s) == [] && OwedByCurrent(s) == [];
    var earlier := Without(s.record.finished, s.record.unloaded);
    assert earlier + [] == earlier && s.record.inserts + [] == s.record.inserts;
  }

  lemma ClearSettles(r: Record, a: nat, now: seq<nat>)
    requires r.loaded == Without(r.finished, r.unloaded) + now && now == (if a in r.unloaded then [] else [a])
    requires r.loaded == r.inserts + []
    ensures IdleStoresOk(Clear(r, a))
  {
    WithoutOneMore(r.finished, r.unloaded, a);
    assert r.inserts + [] == r.inserts;
  }

  lemma ClearLeavesIdle(s: State, a: nat)
    requires a in s.phase && s.phase[a].Clearing? && ThreadOk(s, a) && StoresOk(s)
    ensures IdleStoresOk(Clear(s.record, a))
  {
    SettledOwesNothing(s, a);
    ClearSettles(s.record, a, LoadedByCurrent(s));
  }

  lemma ClearKeepsStores(s: State, a: nat)
    requires a in s.phase && s.phase[a].Clearing? && ThreadOk(s, a) && StoresOk(s)
    ensures StoresOk(Acts(s, a, s.phase[a], true))
  {
    ClearLeavesIdle(s, a);
    var t := Acts(s, a, s.phase[a], true);
    assert t.record == Clear(s.record, a);
    IdleStores(t);
  }

  lemma OwnStepKeepsStores(s: State, a: nat, p: Phase, ok: bool)
    requires a in s.phase && s.phase[a] == p && Current(s.record) == Some(a) && ThreadOk(s, a) && StoresOk(s)
    requires !p.Loading? && !p.Clearing?
    ensures StoresOk(Acts(s, a, p, ok))
  {
  }

  lemma OtherStepKeepsStores(s: State, a: nat, p: Phase, ok: bool)
    requires a in s.phase && s.phase[a] == p && Current(s.record) != Some(a) && ThreadOk(s, a) && StoresOk(s)
    requires s.record.active ==> s.record.accepted != []
    ensures StoresOk(Acts(s, a, p, ok))
  {
  }

  lemma NewKeepsStores(s: State, step: Step)
    requires !step.Act? && StoresOk(s) && ThreadOk(s, step.a)
    ensures StoresOk(Next(s, step))
  {
  }

  lemma StepKeepsStores(s: State, step: Step)
    requires Inv(s)
    ensures StoresOk(Next(s, step))
  {
    assert ThreadOk(s, step.a);
    if !step.Act? {
      NewKeepsStores(s, step);
    } else if step.a in s.phase {
      var a, p := step.a, s.phase[step.a];
      if p.Loading? {
        LoadKeepsStores(s, a, step.ok);
      } else if p.Clearing? {
        ClearKeepsStores(s, a);
      } else if Current(s.record) == Some(a) {
        OwnStepKeepsStores(s, a, p, step.ok);
      } else {
        OtherStepKeepsStores(s, a, p, step.ok);
      }
    }
  }

  lemma {:induction false} RunKeepsInv(steps: seq<Step>)
    ensures Inv(Run(steps))
  {
    if steps == [] {
      assert forall a: nat :: ThreadOk(START, a);
    } else {
      var s, step := Run(steps[..|steps| - 1]), steps[|steps| - 1];
      RunKeepsInv(steps[..|steps| - 1]);
      StepKeepsThreads(s, step);
      StepKeepsGuard(s, step);
      StepKeepsStores(s, step);
    }
  }

  // ----- What it means. -----

  // In every interleaving at most one run is in progress, and one is exactly while the flag is set.
  lemma AtMostOneRun(steps: seq<Step>, a: nat, b: nat)
    requires a in Run(steps).phase && InProgress(Run(steps).phase[a])
    ensures Run(steps).record.active
    ensures b in Run(steps).phase && InProgress(Run(steps).phase[b]) ==> b == a
  {
    RunKeepsInv(steps);
    assert ThreadOk(Run(steps), a) && ThreadOk(Run(steps), b);
  }

  // Accepted calls are the finished runs, in the same order, and the one in progress while the flag is set.
  lemma AcceptedAreFinishedOrRunning(steps: seq<Step>)
    ensures var r := Run(steps).record;
      && r.finished <= r.accepted
      && |r.accepted| == |r.finished| + (if r.active then 1 else 0)
      && Distinct(r.accepted)
  {
    RunKeepsInv(steps);
  }

  // Once the flag is clear the insert attempts are exactly the accepted runs whose settings loaded, once each
  // and in order.
  lemma ClearFlagMeansSettled(steps: seq<Step>)
    requires !Run(steps).record.active
    ensures Run(steps).record.inserts == Without(Run(steps).record.accepted, Run(steps).record.unloaded)
  {
    var s := Run(steps);
    RunKeepsInv(steps);
    IdleStores(s);
    assert s.record.finished + [] == s.record.finished;
  }

  // With the flag set, the run in progress may still owe its attempt, and no other does.
  lemma OnlyTheRunningOneOwes(steps: seq<Step>)
    requires Run(steps).record.active
    ensures var r := Run(steps).record;
      var earlier := Without(r.finished, r.unloaded);
      r.accepted != [] && (r.inserts == earlier || r.inserts == earlier + [r.accepted[|r.accepted| - 1]])
  {
    var s := Run(steps);
    RunKeepsInv(steps);
    var earlier, last := Without(s.record.finished, s.record.unloaded), s.record.accepted[|s.record.accepted| - 1];
    if OwedByCurrent(s) == [] {
      assert s.record.inserts + [] == s.record.inserts && earlier + [] == earlier;
    } else {
      assert s.record.inserts + [last] == earlier + [last];
      assert (s.record.inserts + [last])[..|s.record.inserts|] == (earlier + [last])[..|earlier|];
    }
  }

  // A call is refused only while another one's run is in progress, and SpeedRunning reports just that.
  lemma RefusedOnlyDuringARun(steps: seq<Step>, a: nat)
    requires a in Run(steps).phase && (Run(steps).phase[a].Refusing? || Run(steps).phase[a].Answering?)
    ensures Run(steps).phase[a].Answering? && !Run(steps).phase[a].running
        <==> !exists b: nat :: b in Run(steps).phase && InProgress(Run(steps).phase[b])
  {
    var s := Run(steps);
    RunKeepsInv(steps);
    assert ThreadOk(s, a);
    if s.record.active {
      var b := Current(s.record).value;
      assert b in s.record.accepted;
      assert ThreadOk(s, b);
      assert b in s.phase && InProgress(s.phase[b]);
    } else {
      forall b: nat | b in s.phase ensures !InProgress(s.phase[b]) {
        assert ThreadOk(s, b);
      }
    }
  }
}
