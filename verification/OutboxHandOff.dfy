/**
  What the hand-off of events promises over every run of writers and helper, and the two methods whose
  steps such a run takes: Write (outbox.go) and process_event (notification-helper.sh).
 */
module OutboxHandOff {
  import opened Outbox

  // ----- Over every run. -----

  // Whatever the scan for *.json finds is a completely written event.
  lemma VisibleIsComplete(steps: seq<Step>, n: string)
    requires Visible(n) && n in Run(steps).outbox
    ensures n in Run(steps).written && Run(steps).outbox[n] == Complete(Run(steps).written[n])
  {
    RunKeepsInv(steps);
    assert FileOk(Run(steps), n);
  }

  // A written event is in exactly one place, unchanged; it is lost only if moving its file failed.
  lemma EventsAreConserved(steps: seq<Step>, n: string)
    requires n in Run(steps).written
    ensures Places(Run(steps), n) == 1 && ContentOf(Run(steps), n) == Complete(Run(steps).written[n])
    ensures Move(false) !in steps ==> n !in Run(steps).lost
  {
    RunKeepsInv(steps);
    assert FileOk(Run(steps), n);
    if Move(false) !in steps { NothingLost(steps); }
  }

  lemma OnlyMovesLose(s: State, step: Step)
    ensures step != Move(false) ==> Next(s, step).lost == s.lost
  {
  }

  lemma {:induction false} NothingLost(steps: seq<Step>)
    requires Move(false) !in steps
    ensures Run(steps).lost == map[]
  {
    if steps != [] {
      assert steps[|steps| - 1] in steps;
      OnlyMovesLose(Run(steps[..|steps| - 1]), steps[|steps| - 1]);
      NothingLost(steps[..|steps| - 1]);
    }
  }

  // No field of a written event is empty, whatever the callers of Write passed.
  ghost predicate NoFieldEmpty(e: Event) { "" !in [e.id, e.severity, e.metric, e.title, e.message] }

  ghost predicate WriterFieldsOk(s: State, w: nat) {
    w in s.writers && !s.writers[w].Returned? ==> NoFieldEmpty(s.writers[w].event)
  }

  ghost predicate WrittenFieldsOk(s: State, n: string) { n in s.written ==> NoFieldEmpty(s.written[n]) }

  lemma StepKeepsWriterFields(s: State, step: Step, w: nat)
    requires WriterFieldsOk(s, w)
    ensures WriterFieldsOk(Next(s, step), w)
  {
    if step.Begin? && Enabled(s, step) {
      assert NoFieldEmpty(step.event);
    }
  }

  lemma RenameKeepsWrittenFields(s: State, w: nat, n: string)
    requires WriterFieldsOk(s, w) && WrittenFieldsOk(s, n)
    ensures WrittenFieldsOk(Next(s, Rename(w)), n)
  {
  }

  lemma OthersKeepWrittenFields(s: State, step: Step, n: string)
    requires WrittenFieldsOk(s, n) && !step.Rename?
    ensures WrittenFieldsOk(Next(s, step), n)
  {
  }

  lemma {:induction false} WrittenEventsHaveAllFields(steps: seq<Step>)
    ensures forall w: nat :: WriterFieldsOk(Run(steps), w)
    ensures forall n :: WrittenFieldsOk(Run(steps), n)
  {
    if steps != [] {
      var s, step := Run(steps[..|steps| - 1]), steps[|steps| - 1];
      WrittenEventsHaveAllFields(steps[..|steps| - 1]);
      forall w: nat ensures WriterFieldsOk(Run(steps), w) {
        StepKeepsWriterFields(s, step, w);
      }
      forall n ensures WrittenFieldsOk(Run(steps), n) {
        if step.Rename? {
          RenameKeepsWrittenFields(s, step.writer, n);
        } else {
          OthersKeepWrittenFields(s, step, n);
        }
      }
    }
  }

  // Nothing the writers or the helper do later takes back what was written.
  lemma {:induction false} WrittenStays(steps: seq<Step>, later: seq<Step>, n: string)
    requires n in Run(steps).written
    ensures n in Run(steps + later).written && Run(steps + later).written[n] == Run(steps).written[n]
    decreases |later|
  {
    if later == [] {
      assert steps + later == steps;
    } else {
      var front, last := later[..|later| - 1], later[|later| - 1];
      WrittenStays(steps, front, n);
      assert (steps + later)[..|steps + later| - 1] == steps + front && (steps + later)[|steps + later| - 1] == last;
      RunKeepsInv(steps + front);
      WrittenOnce(Run(steps + front), last, n);
    }
  }

  lemma WrittenOnce(s: State, step: Step, n: string)
    requires Inv(s) && n in s.written
    ensures n in Next(s, step).written && Next(s, step).written[n] == s.written[n]
  {
    if step.Rename? && Enabled(s, step) {
      assert WriterOk(s, step.writer);
    }
  }

  function Crashes(steps: seq<Step>): nat {
    if steps == [] then 0 else Crashes(steps[..|steps| - 1]) + if steps[|steps| - 1] == Crash then 1 else 0
  }

  // The helper has sent the file n and is about to move it.
  predicate AboutToMove(s: State, n: string) { s.helper.Moving? && s.helper.name == n }

  // The crashes that hit just then.
  ghost function CrashesAfterSending(steps: seq<Step>, n: string): nat {
    if steps == [] then 0
    else
      var front := steps[..|steps| - 1];
      CrashesAfterSending(front, n) + if steps[|steps| - 1] == Crash && AboutToMove(Run(front), n) then 1 else 0
  }

  lemma {:induction false} SomeCrashes(steps: seq<Step>, n: string)
    ensures CrashesAfterSending(steps, n) <= Crashes(steps)
  {
    if steps != [] { SomeCrashes(steps[..|steps| - 1], n); }
  }

  predicate Gone(s: State, n: string) { n in s.processed || n in s.failed || n in s.lost }

  predicate AboutToSend(s: State, n: string) { s.helper.Sending? && s.helper.name == n }

  // What one step does to the number of sendings of n, and to where its file is.
  lemma SendSends(s: State, ok: bool, n: string)
    requires HelperOk(s) && Visible(n) && FileOk(s, n)
    ensures var t := Next(s, Send(ok));
      && t.attempts[n] == s.attempts[n] + (if AboutToSend(s, n) then 1 else 0)
      && (AboutToMove(t, n) <==> AboutToMove(s, n) || AboutToSend(s, n))
      && (Gone(t, n) <==> Gone(s, n))
      && !(AboutToSend(s, n) && (Gone(s, n) || AboutToMove(s, n)))
  {
  }

  lemma MovedIsGone(s: State, ok: bool, n: string)
    requires s.helper.Moving? && s.helper.name in s.outbox
    ensures Gone(Moved(s, ok), n) <==> Gone(s, n) || n == s.helper.name
  {
    if !ok {
      assert Moved(s, ok).lost.Keys == s.lost.Keys + {s.helper.name};
    } else if s.helper.to == ToProcessed {
      assert Moved(s, ok).processed.Keys == s.processed.Keys + {s.helper.name};
    } else {
      assert Moved(s, ok).failed.Keys == s.failed.Keys + {s.helper.name};
    }
  }

  lemma MovingSendsNothing(s: State, ok: bool)
    requires s.helper.Moving? && s.helper.name in s.outbox
    ensures Moved(s, ok).attempts == s.attempts && Moved(s, ok).helper.Between?
  {
  }

  lemma MoveMoves(s: State, ok: bool, n: string)
    requires HelperOk(s)
    ensures var t := Next(s, Move(ok));
      t.attempts[n] == s.attempts[n] && !AboutToMove(t, n) && (Gone(t, n) <==> Gone(s, n) || AboutToMove(s, n))
  {
    if s.helper.Moving? {
      MovedIsGone(s, ok, n);
      MovingSendsNothing(s, ok);
    }
  }

  lemma CrashForgets(s: State, n: string)
    requires HelperOk(s) && Visible(n) && FileOk(s, n)
    ensures var t := Next(s, Crash);
      t.attempts[n] == s.attempts[n] && !AboutToMove(t, n) && (Gone(t, n) <==> Gone(s, n))
        && !(Gone(s, n) && AboutToMove(s, n))
  {
    if n in s.outbox { InOutboxIsNotGone(s, n); }
  }

  lemma InOutboxIsNotGone(s: State, n: string)
    requires Visible(n) && FileOk(s, n) && n in s.outbox
    ensures !Gone(s, n)
  {
  }

  lemma LookingSendsNothing(s: State, step: Step, n: string)
    requires step.Scan? || step.Take? || step.Validate?
    requires step.Validate? && Enabled(s, step) ==> Next(s, step).helper.Sending?
    ensures var t := Next(s, step);
      t.attempts[n] == s.attempts[n] && (AboutToMove(t, n) <==> AboutToMove(s, n)) && (Gone(t, n) <==> Gone(s, n))
  {
  }

  lemma WritingLeavesHelper(s: State, step: Step)
    requires step.Begin? || step.Open? || step.Fill? || step.Rename? || step.Abort?
    ensures var t := Next(s, step);
      t.helper == s.helper && t.attempts == s.attempts
      && t.processed == s.processed && t.failed == s.failed && t.lost == s.lost
  {
  }

  lemma WritingSendsNothing(s: State, t: State, n: string)
    requires t.helper == s.helper && t.attempts == s.attempts
    requires t.processed == s.processed && t.failed == s.failed && t.lost == s.lost
    ensures t.attempts[n] == s.attempts[n] && (AboutToMove(t, n) <==> AboutToMove(s, n)) && (Gone(t, n) <==> Gone(s, n))
  {
  }

  lemma {:induction false} SendingsAreCounted(steps: seq<Step>, n: string)
    requires Visible(n)
    ensures Run(steps).attempts[n]
      == CrashesAfterSending(steps, n) + if Gone(Run(steps), n) || AboutToMove(Run(steps), n) then 1 else 0
  {
    if steps != [] {
      var front, step := steps[..|steps| - 1], steps[|steps| - 1];
      var s := Run(front);
      SendingsAreCounted(front, n);
      RunKeepsInv(front);
      assert FileOk(s, n);
      match step
      case Send(ok) => SendSends(s, ok, n);
      case Move(ok) => MoveMoves(s, ok, n);
      case Crash => CrashForgets(s, n);
      case Validate =>
        if Enabled(s, step) {
          assert FileOk(s, s.helper.name);
          ValidateKeepsHelper(s);
        }
        LookingSendsNothing(s, step, n);
      case Scan(_) => LookingSendsNothing(s, step, n);
      case Take => LookingSendsNothing(s, step, n);
      case _ =>
        WritingLeavesHelper(s, step);
        WritingSendsNothing(s, Next(s, step), n);
    }
  }

  // An event that left the outbox was notified exactly once more than the helper crashed between sending it
  // and moving it. It went to processed or to failed by what the last sending returned.
  lemma LeavingMeansSent(steps: seq<Step>, n: string)
    requires n in Run(steps).written && n !in Run(steps).outbox
    ensures Run(steps).attempts[n] == 1 + CrashesAfterSending(steps, n)
    ensures n in Run(steps).processed ==> n in Run(steps).accepted && Run(steps).accepted[n]
    ensures n in Run(steps).failed ==> n in Run(steps).accepted && !Run(steps).accepted[n]
  {
    RunKeepsInv(steps);
    assert FileOk(Run(steps), n);
    assert OutcomeOk(Run(steps), n);
    SendingsAreCounted(steps, n);
  }

  // So exactly once if and only if it never crashed then; at most once more than it crashed at all.
  lemma SentOnceExactly(steps: seq<Step>, n: string)
    requires n in Run(steps).written && n !in Run(steps).outbox
    ensures Run(steps).attempts[n] == 1 <==> CrashesAfterSending(steps, n) == 0
    ensures 1 <= Run(steps).attempts[n] <= 1 + Crashes(steps)
  {
    LeavingMeansSent(steps, n);
    SomeCrashes(steps, n);
  }

  lemma RunOne(steps: seq<Step>, step: Step)
    ensures Run(steps + [step]) == Next(Run(steps), step)
    ensures Crashes(steps + [step]) == Crashes(steps) + if step == Crash then 1 else 0
  {
    assert (steps + [step])[..|steps|] == steps;
  }

  // The state once the first writer has written e as n and the helper, after the given crashes, has sent
  // it so many times and is at work as told.
  function Waiting(n: string, e: Event, helper: Helper, sent: nat, crashes: nat): State {
    var attempts: multiset<string> := multiset{};
    State(map[n := Complete(e)], map[], map[], map[], map[0 := Returned], helper, {n}, map[n := e],
          attempts[n := sent], if sent > 0 then map[n := true] else map[], crashes)
  }

  lemma WriteOnly(n: string, e: Event) returns (steps: seq<Step>)
    requires WellFormed(e) && Visible(n)
    ensures Run(steps) == Waiting(n, e, Between([]), 0, 0) && Crashes(steps) == 0
  {
    TmpFilesDiffer(n, n);
    RunOne([], Begin(0, n, e));
    RunOne([] + [Begin(0, n, e)], Open(0));
    var s2 := Run([] + [Begin(0, n, e)] + [Open(0)]);
    assert s2 == START.(writers := map[0 := Filling(n, e)], names := {n}, outbox := map[TmpFile(n) := Partial]);
    steps := [] + [Begin(0, n, e)] + [Open(0)];
    RunOne(steps, Fill(0));
    steps := steps + [Fill(0)];
    assert Run(steps) == START.(writers := map[0 := Filled(n, e)], names := {n},
                                outbox := map[TmpFile(n) := Complete(e)]);
    RunOne(steps, Rename(0));
    steps := steps + [Rename(0)];
  }

  lemma ScanAndTake(n: string, e: Event, sent: nat, crashes: nat)
    requires Visible(n)
    ensures Next(Waiting(n, e, Between([]), sent, crashes), Scan([n])) == Waiting(n, e, Between([n]), sent, crashes)
    ensures Next(Waiting(n, e, Between([n]), sent, crashes), Take) == Waiting(n, e, Checking(n, []), sent, crashes)
  {
    assert [n][1..] == [];
  }

  lemma ValidateAndSend(n: string, e: Event, sent: nat, crashes: nat)
    ensures Next(Waiting(n, e, Checking(n, []), sent, crashes), Validate)
      == Waiting(n, e, Sending(n, []), sent, crashes)
    ensures Next(Waiting(n, e, Sending(n, []), sent, crashes), Send(true))
         == Waiting(n, e, Moving(n, ToProcessed, []), sent + 1, crashes)
  {
  }

  lemma ScanAndSend(steps: seq<Step>, n: string, e: Event, sent: nat, crashes: nat) returns (more: seq<Step>)
    requires Visible(n) && Run(steps) == Waiting(n, e, Between([]), sent, crashes)
    ensures Run(more) == Waiting(n, e, Moving(n, ToProcessed, []), sent + 1, crashes) && Crashes(more) == Crashes(steps)
  {
    ScanAndTake(n, e, sent, crashes);
    ValidateAndSend(n, e, sent, crashes);
    RunOne(steps, Scan([n]));
    RunOne(steps + [Scan([n])], Take);
    RunOne(steps + [Scan([n])] + [Take], Validate);
    RunOne(steps + [Scan([n])] + [Take] + [Validate], Send(true));
    more := steps + [Scan([n])] + [Take] + [Validate] + [Send(true)];
  }

  // The bound is met: a crash between sending and moving makes the helper send again.
  lemma CrashSendsTwice(n: string, e: Event)
    requires WellFormed(e) && Visible(n)
    ensures exists steps :: Crashes(steps) == 1 && Run(steps).attempts[n] == 2 && n in Run(steps).processed
  {
    var steps := WriteOnly(n, e);
    steps := ScanAndSend(steps, n, e, 0, 0);
    RunOne(steps, Crash);
    steps := ScanAndSend(steps + [Crash], n, e, 1, 1);
    RunOne(steps, Move(true));
    steps := steps + [Move(true)];
    assert Crashes(steps) == 1 && Run(steps).attempts[n] == 2 && n in Run(steps).processed;
  }

  // ----- Write and process_event. -----

  // What the file system did to a write: refused it, cut it short, or wrote it all.
  datatype Wrote = None | Cut | All

  // The outbox after a write that got so far.
  function AfterWrite(outbox: map<string, Content>, name: string, event: Event, wrote: Wrote, renames: bool)
    : map<string, Content>
  {
    match wrote
    case None => outbox
    case Cut => outbox[TmpFile(name) := Partial]
    case All =>
      if renames then (outbox - {TmpFile(name)})[name := Complete(event)] else outbox[TmpFile(name) := Complete(event)]
  }

  // A write is its writer's next steps, as far as it got.
  lemma WriteIsSteps(s: State, w: nat, name: string, event: Event)
    requires w in s.writers && s.writers[w] == Ready(name, event)
    ensures Next(s, Open(w)).outbox == AfterWrite(s.outbox, name, event, Cut, false)
    ensures Next(Next(s, Open(w)), Fill(w)).outbox == AfterWrite(s.outbox, name, event, All, false)
    ensures Next(Next(Next(s, Open(w)), Fill(w)), Rename(w)).outbox == AfterWrite(s.outbox, name, event, All, true)
  {
    var s1 := Next(s, Open(w));
    assert s1 == s.(writers := s.writers[w := Filling(name, event)], outbox := s.outbox[TmpFile(name) := Partial]);
    var s2 := Next(s1, Fill(w));
    assert s2 == s.(writers := s.writers[w := Filled(name, event)],
                    outbox := s.outbox[TmpFile(name) := Complete(event)]);
    assert Next(s2, Rename(w)).outbox == (s2.outbox - {TmpFile(name)})[name := Complete(event)];
    assert s2.outbox - {TmpFile(name)} == s.outbox - {TmpFile(name)};
  }

  // The directories, as Write and process_event change them.
  class Directories {
    var outbox: map<string, Content>
    var processed: map<string, Content>
    var failed: map<string, Content>
    var lost: map<string, Content>
    var attempts: multiset<string>
    var accepted: map<string, bool>

    // Write, once the outbox is enabled and the context live. After an error the helper sees what it saw before.
    method Write(stamp: string, event: Event, wrote: Wrote, renames: bool) returns (ok: bool)
      requires stamp != "" && stamp[0] != '.'
      modifies this`outbox
      ensures ok <==> WellFormed(event) && wrote == All && renames
      ensures outbox == if !WellFormed(event) then old(outbox)
                        else AfterWrite(old(outbox), EventFile(stamp, event.id), event, wrote, renames)
      ensures !ok ==> forall n :: Visible(n) ==>
        (n in outbox <==> n in old(outbox)) && (n in outbox ==> outbox[n] == old(outbox)[n])
    {
      if event.id == "" || event.severity == "" || event.metric == "" || event.title == "" || event.message == "" {
        return false;
      }
      var name := SafeName(stamp + "-" + event.id + ".json");
      assert name == EventFile(stamp, event.id);
      TmpFilesDiffer(name, name);
      var tmp := TmpFile(name);
      if wrote == None {
        return false;
      }
      outbox := outbox[tmp := Partial];
      if wrote == Cut {
        return false;
      }
      outbox := outbox[tmp := Complete(event)];
      if !renames {
        return false;
      }
      outbox := (outbox - {tmp})[name := outbox[tmp]];
      assert outbox == AfterWrite(old(outbox), name, event, All, true);
      return true;
    }

    // Whether these are the directories of the machine's state s.
    ghost predicate Shows(s: State)
      reads this
    {
      outbox == s.outbox && processed == s.processed && failed == s.failed && lost == s.lost
      && attempts == s.attempts && accepted == s.accepted
    }

    method MoveAway(base: string, to: Target, moves: bool, ghost s: State)
      requires Shows(s) && s.helper.Moving? && s.helper.name == base && s.helper.to == to && base in outbox
      modifies this
      ensures Shows(Moved(s, moves))
    {
      var content := outbox[base];
      outbox := outbox - {base};
      if !moves {
        lost := lost[base := content];
      } else if to == ToProcessed {
        processed := processed[base := content];
      } else {
        failed := failed[base := content];
      }
    }

    method SendNotification(base: string, sends: bool, ghost s: State)
      requires Shows(s) && s.helper.Sending? && s.helper.name == base
      modifies this
      ensures Shows(Next(s, Send(sends)))
    {
      attempts, accepted := attempts + multiset{base}, accepted[base := sends];
    }

    // process_event on a file the helper has taken is the machine's Validate, Send and Move; without the Send if
    // the file is not a valid event.
    method ProcessEvent(base: string, sends: bool, moves: bool, ghost s: State)
      requires Shows(s) && s.helper.Checking? && s.helper.name == base && base in outbox
      modifies this
      ensures ValidEvent(old(outbox)[base]) ==> Shows(Next(Next(Next(s, Validate), Send(sends)), Move(moves)))
      ensures !ValidEvent(old(outbox)[base]) ==> Shows(Next(Next(s, Validate), Move(moves)))
    {
      ghost var checked := Next(s, Validate);
      if !ValidEvent(outbox[base]) {
        MoveAway(base, ToFailed, moves, checked);
        return;
      }
      assert Shows(checked) && checked.helper == Sending(base, s.helper.todo);
      SendNotification(base, sends, checked);
      ghost var sent := Next(checked, Send(sends));
      if sends {
        MoveAway(base, ToProcessed, moves, sent);
        return;
      }
      MoveAway(base, ToFailed, moves, sent);
    }
  }
}
