/**
  The hand-off of notification events through a directory (outbox.go, Write and safeName;
  notification-helper.sh, process_event and the scan for files): any number of writers create a hidden temporary
  file, fill it and rename it; one helper, which may crash and restart at any point, scans for *.json,
  sends each event and moves its file away. Steps interleave freely.
 */
module Outbox {
  // ----- File names. -----

  predicate SafeChar(c: char) {
    'a' <= c <= 'z' || 'A' <= c <= 'Z' || '0' <= c <= '9' || c == '.' || c == '-' || c == '_'
  }

  function Sanitized(c: char): char { if SafeChar(c) then c else '-' }

  method SafeName(name: string) returns (safe: string)
    ensures |safe| == |name|
    ensures forall i :: 0 <= i < |name| ==> safe[i] == Sanitized(name[i])
  {
    safe := "";
    for i := 0 to |name|
      invariant |safe| == i
      invariant forall j :: 0 <= j < i ==> safe[j] == Sanitized(name[j])
    {
      if SafeChar(name[i]) {
        safe := safe + [name[i]];
        continue;
      }
      safe := safe + ['-'];
    }
  }

  function SafeNameOf(name: string): (safe: string)
    ensures |safe| == |name|
  {
    seq(|name|, i requires 0 <= i < |name| => Sanitized(name[i]))
  }

  function EventFile(stamp: string, id: string): string { SafeNameOf(stamp + "-" + id + ".json") }

  function TmpFile(name: string): string { "." + name + ".tmp" }

  // What the shell's *.json matches: no leading dot, and that ending.
  predicate Visible(name: string) {
    |name| >= 5 && name[0] != '.' && name[|name| - 5..] == ".json"
  }

  // An event file is visible and stays inside the directory, whatever the event's id is; its
  // temporary file never is visible.
  lemma EventFilesAreVisible(stamp: string, id: string)
    requires stamp != "" && stamp[0] != '.'
    ensures Visible(EventFile(stamp, id)) && '/' !in EventFile(stamp, id)
    ensures !Visible(TmpFile(EventFile(stamp, id))) && TmpFile(EventFile(stamp, id))[0] == '.'
  {
    var name := stamp + "-" + id + ".json";
    var safe := EventFile(stamp, id);
    assert name[|name| - 5..] == ".json";
    forall i | 0 <= i < 5 ensures safe[|safe| - 5 + i] == ".json"[i] {
      assert name[|name| - 5 + i] == ".json"[i];
    }
    assert safe[|safe| - 5..] == ".json";
  }

  // ----- When two events get one file name. -----

  predicate SameSanitized(a: string, b: string) {
    |a| == |b| && forall i :: 0 <= i < |a| ==> Sanitized(a[i]) == Sanitized(b[i])
  }

  lemma SanitizedConcat(a: string, b: string)
    ensures SafeNameOf(a + b) == SafeNameOf(a) + SafeNameOf(b)
  {
  }

  lemma SanitizedEqual(a: string, b: string)
    ensures SafeNameOf(a) == SafeNameOf(b) <==> SameSanitized(a, b)
  {
    if SafeNameOf(a) == SafeNameOf(b) {
      forall i | 0 <= i < |a| ensures Sanitized(a[i]) == Sanitized(b[i]) {
        assert SafeNameOf(a)[i] == SafeNameOf(b)[i];
      }
    }
  }

  lemma EventFileParts(stamp: string, id: string)
    ensures EventFile(stamp, id) == SafeNameOf(stamp) + "-" + SafeNameOf(id) + ".json"
  {
    SanitizedConcat(stamp + "-" + id, ".json");
    SanitizedConcat(stamp + "-", id);
    SanitizedConcat(stamp, "-");
    assert SafeNameOf("-") == "-" && SafeNameOf(".json") == ".json";
  }

  // Exactly when stamps and ids agree character by character once sanitised; every stamp has the same width.
  lemma NamesCollideExactly(stamp: string, id: string, stamp': string, id': string)
    requires |stamp| == |stamp'|
    ensures EventFile(stamp, id) == EventFile(stamp', id') <==> SameSanitized(stamp, stamp') && SameSanitized(id, id')
  {
    EventFileParts(stamp, id);
    EventFileParts(stamp', id');
    SanitizedEqual(stamp, stamp');
    SanitizedEqual(id, id');
    var x := SafeNameOf(stamp) + "-" + SafeNameOf(id) + ".json";
    var y := SafeNameOf(stamp') + "-" + SafeNameOf(id') + ".json";
    if x == y {
      assert x[..|stamp|] == SafeNameOf(stamp) && y[..|stamp|] == SafeNameOf(stamp');
      assert x[|stamp| + 1..|x| - 5] == SafeNameOf(id) && y[|stamp| + 1..|y| - 5] == SafeNameOf(id');
    }
  }

  predicate Safe(s: string) { forall i :: 0 <= i < |s| ==> SafeChar(s[i]) }

  lemma SafeIsKept(a: string, b: string)
    requires Safe(a) && Safe(b)
    ensures SameSanitized(a, b) <==> a == b
  {
  }

  // The stamp 20060102T150405.000000000Z has 26 characters, all safe.
  const STAMP_LENGTH := 26

  datatype Source = Source(stamp: string, id: string)

  predicate SafeSource(e: Source) { |e.stamp| == STAMP_LENGTH && Safe(e.stamp) && Safe(e.id) }

  // Events with safe ids never share a name unless time and id are the same: a new one has a fresh name.
  lemma SafeIdsGetFreshNames(used: set<Source>, names: set<string>, e: Source)
    requires SafeSource(e) && forall u :: u in used ==> SafeSource(u)
    requires forall n :: n in names ==> exists u :: u in used && n == EventFile(u.stamp, u.id)
    ensures e !in used ==> EventFile(e.stamp, e.id) !in names
  {
    if EventFile(e.stamp, e.id) in names {
      var u :| u in used && EventFile(e.stamp, e.id) == EventFile(u.stamp, u.id);
      NamesCollideExactly(e.stamp, e.id, u.stamp, u.id);
      SafeIsKept(e.stamp, u.stamp);
      SafeIsKept(e.id, u.id);
    }
  }

  // A target with a port, as in the ids of latency warnings, is not safe: two targets can share a name.
  lemma TargetsCanCollide(stamp: string)
    ensures "latency-a:1-7" != "latency-a-1-7" && EventFile(stamp, "latency-a:1-7") == EventFile(stamp, "latency-a-1-7")
  {
    var a, b := "latency-a:1-7", "latency-a-1-7";
    assert a[9] != b[9];
    NamesCollideExactly(stamp, a, stamp, b);
  }

  // ----- The machine. -----

  datatype Event = Event(id: string, severity: string, metric: string, title: string, message: string)

  predicate WellFormed(e: Event) {
    e.id != "" && e.severity != "" && e.metric != "" && e.title != "" && e.message != ""
  }

  datatype Content = Partial | Complete(event: Event)

  // The presence tests of the helper accept every completely written event.
  predicate ValidEvent(content: Content) { content.Complete? }

  datatype Writer =
    | Ready(name: string, event: Event)
    | Filling(name: string, event: Event)
    | Filled(name: string, event: Event)
    | Returned

  datatype Target = ToProcessed | ToFailed

  datatype Helper =
    | Between(todo: seq<string>)
    | Checking(name: string, todo: seq<string>)
    | Sending(name: string, todo: seq<string>)
    | Moving(name: string, to: Target, todo: seq<string>)

  datatype State = State(
    outbox: map<string, Content>,
    processed: map<string, Content>,
    failed: map<string, Content>,
    lost: map<string, Content>,          // files removed because moving them failed
    writers: map<nat, Writer>,
    helper: Helper,
    names: set<string>,                  // every name a writer was started with
    written: map<string, Event>,         // events for which Write returned nil
    attempts: multiset<string>,          // notifications sent, by file
    accepted: map<string, bool>,         // what the last notification of a file returned
    crashes: nat)

  const START := State(map[], map[], map[], map[], map[], Between([]), {}, map[], multiset{}, map[], 0)

  datatype Step =
    | Begin(writer: nat, name: string, event: Event)
    | Open(writer: nat)
    | Fill(writer: nat)
    | Rename(writer: nat)
    | Abort(writer: nat)
    | Scan(found: seq<string>)
    | Take
    | Validate
    | Send(ok: bool)
    | Move(ok: bool)
    | Crash

  ghost predicate Enabled(s: State, step: Step) {
    match step
    case Begin(w, name, event) => w !in s.writers && name !in s.names && Visible(name) && WellFormed(event)
    case Open(w) => w in s.writers && s.writers[w].Ready?
    case Fill(w) => w in s.writers && s.writers[w].Filling? && TmpFile(s.writers[w].name) in s.outbox
    case Rename(w) => w in s.writers && s.writers[w].Filled? && TmpFile(s.writers[w].name) in s.outbox
    case Abort(w) => w in s.writers && !s.writers[w].Returned?
    case Scan(found) => s.helper == Between([]) && forall n :: n in found <==> n in s.outbox && Visible(n)
    case Take => s.helper.Between? && s.helper.todo != []
    case Validate => s.helper.Checking? && s.helper.name in s.outbox
    case Send(_) => s.helper.Sending?
    case Move(_) => s.helper.Moving? && s.helper.name in s.outbox
    case Crash => true
  }

  // mv to the directory, or else rm -f.
  function Moved(s: State, ok: bool): State
    requires s.helper.Moving? && s.helper.name in s.outbox
  {
    var n := s.helper.name;
    var gone := s.(helper := Between(s.helper.todo), outbox := s.outbox - {n});
    if !ok then gone.(lost := s.lost[n := s.outbox[n]])
    else if s.helper.to == ToProcessed then gone.(processed := s.processed[n := s.outbox[n]])
    else gone.(failed := s.failed[n := s.outbox[n]])
  }

  ghost function Next(s: State, step: Step): State {
    if !Enabled(s, step) then s
    else
      match step
      case Begin(w, name, event) => s.(writers := s.writers[w := Ready(name, event)], names := s.names + {name})
      case Open(w) =>
        var x := s.writers[w];
        s.(writers := s.writers[w := Filling(x.name, x.event)], outbox := s.outbox[TmpFile(x.name) := Partial])
      case Fill(w) =>
        var x := s.writers[w];
        s.(writers := s.writers[w := Filled(x.name, x.event)], outbox := s.outbox[TmpFile(x.name) := Complete(x.event)])
      case Rename(w) =>
        var x := s.writers[w];
        s.(writers := s.writers[w := Returned],
           outbox := (s.outbox - {TmpFile(x.name)})[x.name := s.outbox[TmpFile(x.name)]],
           written := s.written[x.name := x.event])
      case Abort(w) => s.(writers := s.writers[w := Returned])
      case Scan(found) => s.(helper := Between(found))
      case Take =>
        var n, rest := s.helper.todo[0], s.helper.todo[1..];
        s.(helper := if n in s.outbox then Checking(n, rest) else Between(rest))
      case Validate =>
        var n := s.helper.name;
        s.(helper := if ValidEvent(s.outbox[n]) then Sending(n, s.helper.todo) else Moving(n, ToFailed, s.helper.todo))
      case Send(ok) =>
        var n := s.helper.name;
        s.(helper := Moving(n, if ok then ToProcessed else ToFailed, s.helper.todo),
           attempts := s.attempts + multiset{n}, accepted := s.accepted[n := ok])
      case Move(ok) => Moved(s, ok)
      case Crash => s.(helper := Between([]), crashes := s.crashes + 1)
  }

  ghost function Run(steps: seq<Step>): State {
    if steps == [] then START else Next(Run(steps[..|steps| - 1]), steps[|steps| - 1])
  }

  // ----- The invariant. -----

  // How many of the four places a file of this name is in.
  function Places(s: State, n: string): nat {
    (if n in s.outbox then 1 else 0) + (if n in s.processed then 1 else 0)
    + (if n in s.failed then 1 else 0) + (if n in s.lost then 1 else 0)
  }

  function ContentOf(s: State, n: string): Content
    requires Places(s, n) == 1
  {
    if n in s.outbox then s.outbox[n] else if n in s.processed then s.processed[n]
    else if n in s.failed then s.failed[n] else s.lost[n]
  }

  // A visible name is in exactly one place, with the event in it, if its event was written, and nowhere if not.
  ghost predicate FileOk(s: State, n: string) {
    if n in s.written
    then Visible(n) && n in s.names && Places(s, n) == 1 && ContentOf(s, n) == Complete(s.written[n])
    else Visible(n) ==> Places(s, n) == 0
  }

  // A working writer has a name of its own that is not written yet, and a full temporary file holds its event.
  ghost predicate WriterOk(s: State, w: nat) {
    w in s.writers && !s.writers[w].Returned? ==>
      && Visible(s.writers[w].name) && s.writers[w].name in s.names && s.writers[w].name !in s.written
      && (s.writers[w].Filled? && TmpFile(s.writers[w].name) in s.outbox
          ==> s.outbox[TmpFile(s.writers[w].name)] == Complete(s.writers[w].event))
  }

  ghost predicate Apart(s: State, v: nat, w: nat) {
    v in s.writers && w in s.writers && v != w && !s.writers[v].Returned? && !s.writers[w].Returned?
    ==> s.writers[v].name != s.writers[w].name
  }

  // The helper works on visible files of the outbox, and only after sending does it move one.
  ghost predicate HelperOk(s: State) {
    && (forall n :: n in s.helper.todo ==> Visible(n))
    && (!s.helper.Between? ==> Visible(s.helper.name) && s.helper.name in s.outbox)
    && (s.helper.Moving? ==>
          s.helper.name in s.accepted && (s.accepted[s.helper.name] <==> s.helper.to == ToProcessed))
  }

  // A file that left went where its last sending said, unless it was lost.
  predicate OutcomeOk(s: State, n: string) {
    && (n in s.processed ==> n in s.accepted && s.accepted[n])
    && (n in s.failed ==> n in s.accepted && !s.accepted[n])
  }

  ghost predicate FilesOk(s: State) { forall n :: FileOk(s, n) }

  ghost predicate WritersOk(s: State) { (forall w: nat :: WriterOk(s, w)) && forall v: nat, w: nat :: Apart(s, v, w) }

  ghost predicate OutcomesOk(s: State) { forall n :: Visible(n) ==> OutcomeOk(s, n) }

  ghost predicate Inv(s: State) {
    FilesOk(s) && WritersOk(s) && HelperOk(s) && OutcomesOk(s)
  }

  lemma TmpFilesDiffer(a: string, b: string)
    ensures TmpFile(a) == TmpFile(b) <==> a == b
    ensures !Visible(TmpFile(a))
  {
    assert TmpFile(a)[1..|a| + 1] == a && TmpFile(b)[1..|b| + 1] == b;
  }

  // ----- Each step keeps each part of it, name by name and writer by writer. -----

  lemma OpenKeepsFile(s: State, w: nat, n: string)
    requires FileOk(s, n) && WriterOk(s, w) && Enabled(s, Open(w))
    ensures FileOk(Next(s, Open(w)), n)
  {
    TmpFilesDiffer(s.writers[w].name, n);
  }

  lemma FillKeepsFile(s: State, w: nat, n: string)
    requires FileOk(s, n) && WriterOk(s, w) && Enabled(s, Fill(w))
    ensures FileOk(Next(s, Fill(w)), n)
  {
    TmpFilesDiffer(s.writers[w].name, n);
  }

  lemma RenameKeepsFile(s: State, w: nat, n: string)
    requires FileOk(s, n) && WriterOk(s, w) && Enabled(s, Rename(w)) && FileOk(s, s.writers[w].name)
    ensures FileOk(Next(s, Rename(w)), n)
  {
    TmpFilesDiffer(s.writers[w].name, n);
  }

  lemma MoveKeepsFile(s: State, ok: bool, n: string)
    requires FileOk(s, n) && HelperOk(s) && Enabled(s, Move(ok))
    ensures FileOk(Next(s, Move(ok)), n)
  {
  }

  // The steps that touch no file.
  predicate Quiet(step: Step) { !step.Open? && !step.Fill? && !step.Rename? && !step.Move? }

  lemma QuietTouchesNoFile(s: State, step: Step)
    requires Quiet(step)
    ensures var t := Next(s, step);
      t.outbox == s.outbox && t.processed == s.processed && t.failed == s.failed && t.lost == s.lost
      && t.written == s.written && s.names <= t.names
  {
  }

  lemma QuietKeepsFile(s: State, t: State, n: string)
    requires FileOk(s, n) && s.names <= t.names && t.written == s.written
    requires t.outbox == s.outbox && t.processed == s.processed && t.failed == s.failed && t.lost == s.lost
    ensures FileOk(t, n)
  {
  }

  lemma StepKeepsFiles(s: State, step: Step)
    requires FilesOk(s) && WritersOk(s) && HelperOk(s) && Enabled(s, step)
    ensures FilesOk(Next(s, step))
  {
    forall n ensures FileOk(Next(s, step), n) {
      assert FileOk(s, n);
      match step
      case Open(w) => assert WriterOk(s, w); OpenKeepsFile(s, w, n);
      case Fill(w) => assert WriterOk(s, w); FillKeepsFile(s, w, n);
      case Rename(w) => assert WriterOk(s, w) && FileOk(s, s.writers[w].name); RenameKeepsFile(s, w, n);
      case Move(ok) => MoveKeepsFile(s, ok, n);
      case _ => QuietTouchesNoFile(s, step); QuietKeepsFile(s, Next(s, step), n);
    }
  }

  // The writer a step belongs to.
  predicate Acts(step: Step, w: nat) {
    match step
    case Begin(x, _, _) => x == w
    case Open(x) => x == w
    case Fill(x) => x == w
    case Rename(x) => x == w
    case Abort(x) => x == w
    case _ => false
  }

  lemma OwnStepKeepsWriter(s: State, step: Step, w: nat)
    requires WriterOk(s, w) && Acts(step, w) && Enabled(s, step) && (step.Begin? ==> FileOk(s, step.name))
    ensures WriterOk(Next(s, step), w)
  {
  }

  lemma OtherWriterKeepsWriter(s: State, step: Step, v: nat, w: nat)
    requires WriterOk(s, v) && WriterOk(s, w) && Apart(s, v, w) && v != w && Acts(step, v) && Enabled(s, step)
    ensures WriterOk(Next(s, step), w)
  {
    if w in s.writers && !s.writers[w].Returned? && v in s.writers && !s.writers[v].Returned? {
      TmpFilesDiffer(s.writers[v].name, s.writers[w].name);
    }
  }

  lemma HelperStepKeepsWriter(s: State, step: Step, w: nat)
    requires WriterOk(s, w) && HelperOk(s) && Enabled(s, step) && !Acts(step, w)
    requires step.Scan? || step.Take? || step.Validate? || step.Send? || step.Move? || step.Crash?
    ensures WriterOk(Next(s, step), w)
  {
    if w in s.writers && !s.writers[w].Returned? {
      TmpFilesDiffer(s.writers[w].name, s.writers[w].name);
    }
  }

  lemma StepKeepsApart(s: State, step: Step, v: nat, w: nat)
    requires Apart(s, v, w) && WriterOk(s, v) && WriterOk(s, w) && Enabled(s, step)
    ensures Apart(Next(s, step), v, w)
  {
  }

  lemma StepKeepsWriters(s: State, step: Step)
    requires FilesOk(s) && WritersOk(s) && HelperOk(s) && Enabled(s, step)
    ensures WritersOk(Next(s, step))
  {
    forall w: nat ensures WriterOk(Next(s, step), w) {
      assert WriterOk(s, w);
      if step.Scan? || step.Take? || step.Validate? || step.Send? || step.Move? || step.Crash? {
        HelperStepKeepsWriter(s, step, w);
      } else if Acts(step, w) {
        if step.Begin? { assert FileOk(s, step.name); }
        OwnStepKeepsWriter(s, step, w);
      } else {
        assert WriterOk(s, step.writer) && Apart(s, step.writer, w);
        OtherWriterKeepsWriter(s, step, step.writer, w);
      }
    }
    forall v: nat, w: nat ensures Apart(Next(s, step), v, w) {
      assert WriterOk(s, v) && WriterOk(s, w) && Apart(s, v, w);
      StepKeepsApart(s, step, v, w);
    }
  }

  lemma WriterStepKeepsHelper(s: State, step: Step, w: nat)
    requires HelperOk(s) && Acts(step, w) && WriterOk(s, w) && Enabled(s, step)
    ensures HelperOk(Next(s, step))
  {
    if w in s.writers {
      if !s.writers[w].Returned? {
        TmpFilesDiffer(s.writers[w].name, s.writers[w].name);
      }
    }
  }

  lemma HelperStepKeepsHelper(s: State, step: Step)
    requires HelperOk(s) && Enabled(s, step)
    requires step.Scan? || step.Take? || step.Send? || step.Move? || step.Crash?
    ensures HelperOk(Next(s, step))
  {
  }

  // The file being checked is complete, so validation never rejects it.
  lemma ValidateKeepsHelper(s: State)
    requires HelperOk(s) && Enabled(s, Validate) && FileOk(s, s.helper.name)
    ensures HelperOk(Next(s, Validate)) && Next(s, Validate).helper.Sending?
  {
  }

  lemma StepKeepsHelper(s: State, step: Step)
    requires FilesOk(s) && WritersOk(s) && HelperOk(s) && Enabled(s, step)
    ensures HelperOk(Next(s, step))
  {
    if step.Validate? {
      assert FileOk(s, s.helper.name);
      ValidateKeepsHelper(s);
    } else if step.Scan? || step.Take? || step.Send? || step.Move? || step.Crash? {
      HelperStepKeepsHelper(s, step);
    } else {
      assert WriterOk(s, step.writer);
      WriterStepKeepsHelper(s, step, step.writer);
    }
  }

  lemma SendKeepsOutcome(s: State, ok: bool, n: string)
    requires Visible(n) && OutcomeOk(s, n) && FileOk(s, n) && HelperOk(s) && Enabled(s, Send(ok))
    ensures OutcomeOk(Next(s, Send(ok)), n)
  {
  }

  lemma MoveKeepsOutcome(s: State, ok: bool, n: string)
    requires OutcomeOk(s, n) && HelperOk(s) && Enabled(s, Move(ok))
    ensures OutcomeOk(Next(s, Move(ok)), n)
  {
  }

  lemma OtherStepKeepsOutcome(s: State, step: Step, n: string)
    requires OutcomeOk(s, n) && !step.Send? && !step.Move?
    ensures OutcomeOk(Next(s, step), n)
  {
  }

  lemma StepKeepsOutcomes(s: State, step: Step)
    requires FilesOk(s) && HelperOk(s) && OutcomesOk(s) && Enabled(s, step)
    ensures OutcomesOk(Next(s, step))
  {
    forall n | Visible(n) ensures OutcomeOk(Next(s, step), n) {
      assert FileOk(s, n) && OutcomeOk(s, n);
      match step
      case Send(ok) => SendKeepsOutcome(s, ok, n);
      case Move(ok) => MoveKeepsOutcome(s, ok, n);
      case _ => OtherStepKeepsOutcome(s, step, n);
    }
  }

  lemma {:induction false} RunKeepsInv(steps: seq<Step>)
    ensures Inv(Run(steps))
  {
    if steps != [] {
      var s, step := Run(steps[..|steps| - 1]), steps[|steps| - 1];
      RunKeepsInv(steps[..|steps| - 1]);
      if Enabled(s, step) {
        StepKeepsFiles(s, step);
        StepKeepsWriters(s, step);
        StepKeepsHelper(s, step);
        StepKeepsOutcomes(s, step);
      }
    }
  }
}
