/**
 The snapshot tests of a DataProtectionTest: one goroutine per complete config, two mutexes,
 a wait group. Every access to shared memory is a step of its own (an append is a load and a
 store), and an arbitrary scheduler picks the next step of the launching loop or of a worker.
 */
module SnapshotFanout {

  import opened Wrappers

  datatype Config = Config(pvc: string, namespace: string, snapshotClass: string)

  /** All three required fields are set; other configs are skipped. */
  predicate IsComplete(c: Config) {
    c.pvc != "" && c.namespace != "" && c.snapshotClass != ""
  }

  /** A SnapshotTestStatus and the index of the config its worker was given. */
  datatype Entry = Entry(worker: nat, pvc: string, namespace: string, ready: bool)

  datatype Pc =
    | NotStarted
    | Creating
    | Waiting
    | ErrLock | ErrLoad | ErrStore(errors: seq<nat>) | ErrUnlock
    | ResLock | ResLoad | ResStore(entries: seq<Entry>) | ResUnlock
    | Finished

  datatype Worker = Worker(pc: Pc, ready: bool)

  datatype State = State(
    configs: seq<Config>,
    launched: nat,             // configs the loop has gone past
    group: int,                // the wait group's counter
    workers: seq<Worker>,
    results: seq<Entry>,
    errors: seq<nat>,          // workers whose error is in combinedErr
    mu: Option<nat>,           // holder of the mutex for results
    errMu: Option<nat>,        // holder of the mutex for combinedErr
    waited: bool               // Wait has returned
  )

  function Initial(configs: seq<Config>): State {
    State(configs, 0, 0, seq(|configs|, i => Worker(NotStarted, false)), [], [], None, None, false)
  }

  function EntryOf(s: State, i: nat): Entry
    requires i < |s.configs| && i < |s.workers|
  {
    Entry(i, s.configs[i].pvc, s.configs[i].namespace, s.workers[i].ready)
  }

  datatype Event = Launch | Work(worker: nat, ok: bool) | WaitReturns

  function At(s: State, i: nat, pc: Pc): State
    requires i < |s.workers|
  {
    s.(workers := s.workers[i := s.workers[i].(pc := pc)])
  }

  /** The next step of worker `i`; `ok` decides creation and readiness. */
  function WorkStep(s: State, i: nat, ok: bool): State
    requires i < |s.workers| == |s.configs|
  {
    match s.workers[i].pc
    case NotStarted => s
    case Creating => At(s, i, if ok then Waiting else ErrLock)
    case Waiting =>
      if ok then s.(workers := s.workers[i := Worker(ResLock, true)]) else At(s, i, ErrLock)
    case ErrLock => if s.errMu.Some? then s else At(s, i, ErrLoad).(errMu := Some(i))
    case ErrLoad => At(s, i, ErrStore(s.errors + [i]))
    case ErrStore(errors) => At(s, i, ErrUnlock).(errors := errors)
    case ErrUnlock => At(s, i, ResLock).(errMu := None)
    case ResLock => if s.mu.Some? then s else At(s, i, ResLoad).(mu := Some(i))
    case ResLoad => At(s, i, ResStore(s.results + [EntryOf(s, i)]))
    case ResStore(entries) => At(s, i, ResUnlock).(results := entries)
    case ResUnlock => At(s, i, Finished).(mu := None, group := s.group - 1)
    case Finished => s
  }

  /** One step of the scheduler; a step that is not enabled changes nothing. */
  function Step(s: State, e: Event): State
    requires |s.workers| == |s.configs|
  {
    match e
    case Launch =>
      if s.launched >= |s.configs| then s
      else if !IsComplete(s.configs[s.launched]) then s.(launched := s.launched + 1)
      else At(s, s.launched, Creating).(launched := s.launched + 1, group := s.group + 1)
    case Work(i, ok) => if i < |s.workers| then WorkStep(s, i, ok) else s
    case WaitReturns =>
      if s.launched == |s.configs| && s.group == 0 then s.(waited := true) else s
  }

  function Run(configs: seq<Config>, es: seq<Event>): (s: State)
    ensures s.configs == configs && |s.workers| == |configs|
  {
    if es == [] then Initial(configs) else Step(Run(configs, es[..|es| - 1]), es[|es| - 1])
  }

  // ---------------------------------------------------------------- counting

  function One(b: bool): nat {
    if b then 1 else 0
  }

  predicate Active(w: Worker) {
    w.pc != NotStarted && w.pc != Finished
  }

  function ActiveCount(ws: seq<Worker>): nat {
    if ws == [] then 0 else ActiveCount(ws[..|ws| - 1]) + One(Active(ws[|ws| - 1]))
  }

  lemma {:induction false} ActiveUpdate(ws: seq<Worker>, i: nat, w: Worker)
    requires i < |ws|
    ensures ActiveCount(ws[i := w]) == ActiveCount(ws) - One(Active(ws[i])) + One(Active(w))
  {
    var k := |ws| - 1;
    if i == k {
      assert ws[i := w][..k] == ws[..k];
    } else {
      ActiveUpdate(ws[..k], i, w);
      assert ws[i := w][..k] == ws[..k][i := w];
    }
  }

  lemma {:induction false} ActiveZero(ws: seq<Worker>)
    ensures ActiveCount(ws) == 0 <==> forall i :: 0 <= i < |ws| ==> !Active(ws[i])
  {
    if ws != [] {
      ActiveZero(ws[..|ws| - 1]);
      assert forall i :: 0 <= i < |ws| - 1 ==> ws[..|ws| - 1][i] == ws[i];
    }
  }

  /** How many entries worker `i` has in the results. */
  function Count(es: seq<Entry>, i: nat): nat {
    if es == [] then 0 else Count(es[..|es| - 1], i) + One(es[|es| - 1].worker == i)
  }

  lemma CountSnoc(es: seq<Entry>, e: Entry, i: nat)
    ensures Count(es + [e], i) == Count(es, i) + One(e.worker == i)
  {
    assert (es + [e])[..|es|] == es;
  }

  // ---------------------------------------------------------------- invariant

  predicate HoldsMu(pc: Pc) {
    pc.ResLoad? || pc.ResStore? || pc.ResUnlock?
  }

  predicate HoldsErrMu(pc: Pc) {
    pc.ErrLoad? || pc.ErrStore? || pc.ErrUnlock?
  }

  /** The worker's entry is in the results. */
  predicate Recorded(w: Worker) {
    w.pc.ResUnlock? || w.pc.Finished?
  }

  /** The worker's error is in combinedErr. */
  predicate Reported(w: Worker) {
    !w.ready && (w.pc.ErrUnlock? || w.pc.ResLock? || HoldsMu(w.pc) || w.pc.Finished?)
  }

  /** What holds of worker `j` and the shared state at every point of every schedule. */
  predicate WorkerOk(s: State, j: nat)
    requires j < |s.workers| == |s.configs|
  {
    var w := s.workers[j];
    // mutual exclusion
    && (HoldsMu(w.pc) <==> s.mu == Some(j))
    && (HoldsErrMu(w.pc) <==> s.errMu == Some(j))
    // a value loaded under a mutex is still the shared value when it is stored
    && (w.pc.ResStore? ==> w.pc.entries == s.results + [EntryOf(s, j)])
    && (w.pc.ErrStore? ==> w.pc.errors == s.errors + [j])
    // started by the loop, and ready only after waiting
    && (w.pc.NotStarted? <==> j >= s.launched || !IsComplete(s.configs[j]))
    && (w.ready ==> w.pc.ResLock? || HoldsMu(w.pc) || w.pc.Finished?)
    // recorded once, reported exactly if it failed
    && Count(s.results, j) == One(Recorded(w))
    && (Reported(w) <==> j in s.errors)
  }

  predicate EntryOk(s: State, k: nat)
    requires |s.workers| == |s.configs| && k < |s.results|
  {
    var i := s.results[k].worker;
    i < |s.workers| && Recorded(s.workers[i]) && s.results[k] == EntryOf(s, i)
  }

  predicate GroupOk(s: State) {
    && s.launched <= |s.configs|
    && s.group == ActiveCount(s.workers)
    && (s.waited ==> s.launched == |s.configs| && s.group == 0)
  }

  predicate Shape(s: State) {
    |s.workers| == |s.configs|
  }

  predicate AllOk(s: State)
    requires Shape(s)
  {
    && (forall j :: 0 <= j < |s.workers| ==> WorkerOk(s, j))
    && (forall k :: 0 <= k < |s.results| ==> EntryOk(s, k))
    && (forall k :: 0 <= k < |s.errors| ==> s.errors[k] < |s.workers|)
  }

  predicate HoldersOk(s: State) {
    && (s.mu.Some? ==> s.mu.value < |s.workers|)
    && (s.errMu.Some? ==> s.errMu.value < |s.workers|)
  }

  predicate Inv(s: State) {
    Shape(s) && AllOk(s) && GroupOk(s) && HoldersOk(s)
  }

  lemma InitialInv(configs: seq<Config>)
    ensures Inv(Initial(configs))
  {
    ActiveZero(Initial(configs).workers);
  }

  /** A step of a worker keeps what holds of itself. */
  lemma WorkKeepsSelf(s: State, i: nat, ok: bool)
    requires Shape(s) && i < |s.workers| && WorkerOk(s, i)
    ensures WorkerOk(WorkStep(s, i, ok), i)
  {
    hide Count, IsComplete;
    match s.workers[i].pc {
      case ResStore(_) =>
        CountSnoc(s.results, EntryOf(s, i), i);
      case ErrStore(errors) =>
        assert errors[|s.errors|] == i;
      case _ =>
    }
  }

  /** The mutexes protect a worker from the steps of the others. */
  lemma WorkKeepsOther(s: State, i: nat, ok: bool, j: nat)
    requires Shape(s) && i < |s.workers| && j < |s.workers| && i != j
    requires WorkerOk(s, i) && WorkerOk(s, j)
    ensures WorkerOk(WorkStep(s, i, ok), j)
  {
    hide Count, IsComplete;
    match s.workers[i].pc {
      case ResStore(_) =>
        CountSnoc(s.results, EntryOf(s, i), j);
      case ErrStore(errors) =>
        assert forall m :: 0 <= m < |s.errors| ==> errors[m] == s.errors[m];
      case _ =>
    }
  }

  lemma WorkKeepsEntry(s: State, i: nat, ok: bool, k: nat)
    requires Shape(s) && i < |s.workers| && WorkerOk(s, i)
    requires k < |WorkStep(s, i, ok).results|
    requires k < |s.results| ==> EntryOk(s, k)
    ensures EntryOk(WorkStep(s, i, ok), k)
  {
    hide Count, IsComplete;
    match s.workers[i].pc {
      case ResStore(_) =>
        if k < |s.results| {
          assert WorkStep(s, i, ok).results[k] == s.results[k];
        }
      case ResUnlock =>
      case Finished =>
      case _ =>
        assert WorkStep(s, i, ok).results == s.results;
    }
  }

  lemma WorkKeepsErrors(s: State, i: nat, ok: bool, k: nat)
    requires Shape(s) && i < |s.workers| && WorkerOk(s, i)
    requires k < |WorkStep(s, i, ok).errors|
    requires k < |s.errors| ==> s.errors[k] < |s.workers|
    ensures WorkStep(s, i, ok).errors[k] < |s.workers|
  {
    hide Count, IsComplete;
  }

  lemma WorkKeepsInv(s: State, i: nat, ok: bool)
    requires Inv(s) && i < |s.workers|
    ensures Inv(WorkStep(s, i, ok))
  {
    var s' := WorkStep(s, i, ok);
    assert WorkerOk(s, i);
    WorkFrame(s, i, ok);
    WorkKeepsGroup(s, i, ok);
    WorkKeepsHolders(s, i, ok);
    hide WorkStep, WorkerOk, EntryOk, GroupOk, HoldersOk;
    forall j | 0 <= j < |s.workers| ensures WorkerOk(s', j) {
      if j == i {
        WorkKeepsSelf(s, i, ok);
      } else {
        WorkKeepsOther(s, i, ok, j);
      }
    }
    forall k | 0 <= k < |s'.results| ensures EntryOk(s', k) {
      assert k < |s.results| ==> EntryOk(s, k);
      WorkKeepsEntry(s, i, ok, k);
    }
    forall k | 0 <= k < |s'.errors| ensures s'.errors[k] < |s.workers| {
      WorkKeepsErrors(s, i, ok, k);
    }
  }

  lemma WorkKeepsHolders(s: State, i: nat, ok: bool)
    requires Shape(s) && i < |s.workers| && HoldersOk(s)
    ensures HoldersOk(WorkStep(s, i, ok))
  {
  }

  lemma WorkKeepsGroup(s: State, i: nat, ok: bool)
    requires Shape(s) && i < |s.workers| && GroupOk(s)
    ensures GroupOk(WorkStep(s, i, ok)) && Shape(WorkStep(s, i, ok))
  {
    hide ActiveCount;
    var s' := WorkStep(s, i, ok);
    assert s'.workers == s.workers[i := s'.workers[i]];
    ActiveUpdate(s.workers, i, s'.workers[i]);
    ActiveZero(s.workers);
  }

  lemma LaunchKeepsInv(s: State)
    requires Inv(s)
    ensures Inv(Step(s, Launch))
  {
    var s' := Step(s, Launch);
    if s.launched < |s.configs| {
      assert WorkerOk(s, s.launched);
      forall j | 0 <= j < |s.workers| ensures WorkerOk(s', j) {
        assert WorkerOk(s, j);
      }
      forall k | 0 <= k < |s'.results| ensures EntryOk(s', k) {
        assert EntryOk(s, k);
      }
      if IsComplete(s.configs[s.launched]) {
        ActiveUpdate(s.workers, s.launched, s'.workers[s.launched]);
      }
    }
  }

  lemma WaitKeepsInv(s: State)
    requires Inv(s)
    ensures Inv(Step(s, WaitReturns))
  {
    var s' := Step(s, WaitReturns);
    forall j | 0 <= j < |s.workers| ensures WorkerOk(s', j) {
      assert WorkerOk(s, j);
    }
    forall k | 0 <= k < |s'.results| ensures EntryOk(s', k) {
      assert EntryOk(s, k);
    }
  }

  lemma StepKeepsInv(s: State, e: Event)
    requires Inv(s)
    ensures Inv(Step(s, e))
  {
    hide AllOk, GroupOk, HoldersOk, WorkStep;
    match e {
      case Launch => LaunchKeepsInv(s);
      case WaitReturns => WaitKeepsInv(s);
      case Work(i, ok) =>
        if i < |s.workers| {
          WorkKeepsInv(s, i, ok);
        }
    }
  }

  lemma {:induction false} RunKeepsInv(configs: seq<Config>, es: seq<Event>)
    ensures Inv(Run(configs, es))
  {
    if es == [] {
      InitialInv(configs);
    } else {
      RunKeepsInv(configs, es[..|es| - 1]);
      StepKeepsInv(Run(configs, es[..|es| - 1]), es[|es| - 1]);
    }
  }

  // ---------------------------------------------------------------- progress

  /** A worker that is between start and end, and not in front of a mutex that is held. */
  predicate CanWork(s: State, i: nat) {
    && i < |s.workers| && Active(s.workers[i])
    && (s.workers[i].pc.ResLock? ==> s.mu.None?) && (s.workers[i].pc.ErrLock? ==> s.errMu.None?)
  }

  lemma WorkChanges(s: State, i: nat)
    requires Shape(s) && CanWork(s, i)
    ensures Step(s, Work(i, true)) != s
  {
    assert WorkStep(s, i, true).workers[i].pc != s.workers[i].pc;
  }

  /** Some worker can go on: whoever holds a mutex, or anybody if both are free. */
  lemma SomeoneCanWork(s: State, i: nat) returns (j: nat)
    requires Inv(s) && i < |s.workers| && Active(s.workers[i])
    ensures CanWork(s, j)
  {
    hide Count, IsComplete;
    if s.mu.Some? {
      j := s.mu.value;
      assert WorkerOk(s, j);
    } else if s.errMu.Some? {
      j := s.errMu.value;
      assert WorkerOk(s, j);
    } else {
      j := i;
    }
  }

  lemma NextStep(s: State) returns (e: Event)
    requires Inv(s) && !s.waited
    ensures Step(s, e) != s
  {
    if s.launched < |s.configs| {
      e := Launch;
    } else if i :| 0 <= i < |s.workers| && Active(s.workers[i]) {
      var j := SomeoneCanWork(s, i);
      WorkChanges(s, j);
      e := Work(j, true);
    } else {
      ActiveZero(s.workers);
      hide AllOk;
      e := WaitReturns;
    }
  }

  /** No schedule gets stuck before Wait has returned. */
  lemma NeverStuck(configs: seq<Config>, es: seq<Event>)
    ensures var s := Run(configs, es); s.waited || exists e :: Step(s, e) != s
  {
    RunKeepsInv(configs, es);
    var s := Run(configs, es);
    hide Run, Inv;
    if !s.waited {
      var e := NextStep(s);
    }
  }

  /** How far a worker still has to go. */
  function ToGo(pc: Pc): nat {
    match pc
    case NotStarted => 11
    case Creating => 10
    case Waiting => 9
    case ErrLock => 8
    case ErrLoad => 7
    case ErrStore(_) => 6
    case ErrUnlock => 5
    case ResLock => 4
    case ResLoad => 3
    case ResStore(_) => 2
    case ResUnlock => 1
    case Finished => 0
  }

  function AllToGo(ws: seq<Worker>): nat {
    if ws == [] then 0 else AllToGo(ws[..|ws| - 1]) + ToGo(ws[|ws| - 1].pc)
  }

  lemma {:induction false} AllToGoUpdate(ws: seq<Worker>, i: nat, w: Worker)
    requires i < |ws|
    ensures AllToGo(ws[i := w]) == AllToGo(ws) - ToGo(ws[i].pc) + ToGo(w.pc)
  {
    var k := |ws| - 1;
    if i == k {
      assert ws[i := w][..k] == ws[..k];
    } else {
      AllToGoUpdate(ws[..k], i, w);
      assert ws[i := w][..k] == ws[..k][i := w];
    }
  }

  /** Steps left: those of the loop, of the workers, and of Wait. */
  function Left(s: State): nat
    requires s.launched <= |s.configs|
  {
    (|s.configs| - s.launched) + AllToGo(s.workers) + One(!s.waited)
  }

  /** Every step that does something leaves fewer to do. */
  lemma StepsRunOut(s: State, e: Event)
    requires Inv(s) && Step(s, e) != s
    ensures Inv(Step(s, e)) && Left(Step(s, e)) < Left(s)
  {
    StepKeepsInv(s, e);
    match e
    case Launch =>
      assert WorkerOk(s, s.launched);
      if IsComplete(s.configs[s.launched]) {
        AllToGoUpdate(s.workers, s.launched, Step(s, e).workers[s.launched]);
      }
    case Work(i, ok) => WorkRunsOut(s, i, ok);
    case WaitReturns =>
  }

  lemma WorkFrame(s: State, i: nat, ok: bool)
    requires Shape(s) && i < |s.workers|
    ensures var s' := WorkStep(s, i, ok);
      && s'.launched == s.launched && s'.configs == s.configs && s'.waited == s.waited
      && |s'.workers| == |s.workers| && s'.workers == s.workers[i := s'.workers[i]]
  {
  }

  lemma BlockedWork(s: State, i: nat, ok: bool)
    requires Shape(s) && i < |s.workers| && !CanWork(s, i)
    ensures WorkStep(s, i, ok) == s
  {
  }

  lemma WorkAdvances(s: State, i: nat, ok: bool)
    requires Shape(s) && CanWork(s, i)
    ensures i < |WorkStep(s, i, ok).workers| && ToGo(WorkStep(s, i, ok).workers[i].pc) < ToGo(s.workers[i].pc)
  {
    hide EntryOf;
  }

  lemma WorkRunsOut(s: State, i: nat, ok: bool)
    requires Shape(s) && i < |s.workers| && WorkStep(s, i, ok) != s
    ensures var s' := WorkStep(s, i, ok);
      s'.launched == s.launched && s'.configs == s.configs && s'.waited == s.waited && AllToGo(s'.workers) < AllToGo(s.workers)
  {
    hide AllToGo, WorkStep;
    WorkFrame(s, i, ok);
    if CanWork(s, i) {
      WorkAdvances(s, i, ok);
    } else {
      BlockedWork(s, i, ok);
    }
    AllToGoUpdate(s.workers, i, WorkStep(s, i, ok).workers[i]);
  }

  lemma RunOne(configs: seq<Config>, es: seq<Event>, e: Event)
    ensures Run(configs, es + [e]) == Step(Run(configs, es), e)
  {
    assert (es + [e])[..|es|] == es;
    hide Step;
  }

  lemma {:induction false} FinishWithin(configs: seq<Config>, es: seq<Event>, s: State, n: nat) returns (more: seq<Event>)
    requires s == Run(configs, es) && Inv(s) && Left(s) <= n
    ensures |more| <= n && Run(configs, es + more).waited
    decreases n
  {
    hide Run, Step, Inv, Left;
    if s.waited {
      more := [];
      assert es + more == es;
    } else {
      var e := NextStep(s);
      StepsRunOut(s, e);
      RunOne(configs, es, e);
      var rest := FinishWithin(configs, es + [e], Step(s, e), n - 1);
      more := [e] + rest;
      assert es + more == es + [e] + rest;
    }
  }

  /** Whatever has happened, Wait returns after at most `Left` further steps of a suitable schedule. */
  lemma WaitCanReturn(configs: seq<Config>, es: seq<Event>) returns (more: seq<Event>)
    ensures Inv(Run(configs, es)) && |more| <= Left(Run(configs, es)) && Run(configs, es + more).waited
  {
    RunKeepsInv(configs, es);
    var s := Run(configs, es);
    hide Run, AllOk, Left;
    more := FinishWithin(configs, es, s, Left(s));
  }

  // ---------------------------------------------------------------- summary

  function Passed(es: seq<Entry>): nat {
    if es == [] then 0 else Passed(es[..|es| - 1]) + One(es[|es| - 1].ready)
  }

  /** The counting loop behind "passed/total". */
  method Summarize(results: seq<Entry>) returns (passed: nat, total: nat)
    ensures passed == Passed(results) && total == |results|
    ensures passed == total <==> forall k :: 0 <= k < |results| ==> results[k].ready
  {
    passed, total := 0, |results|;
    for k := 0 to |results|
      invariant passed == Passed(results[..k])
    {
      assert results[..k + 1][..k] == results[..k];
      if results[k].ready {
        passed := passed + 1;
      }
    }
    assert results[..|results|] == results;
    PassedAll(results);
  }

  lemma {:induction false} PassedAll(es: seq<Entry>)
    ensures Passed(es) <= |es|
    ensures Passed(es) == |es| <==> forall k :: 0 <= k < |es| ==> es[k].ready
  {
    if es != [] {
      PassedAll(es[..|es| - 1]);
      assert forall k :: 0 <= k < |es| - 1 ==> es[..|es| - 1][k] == es[k];
    }
  }

  /** How many of the first `n` flags are set. */
  function Tally(flags: seq<bool>): nat {
    if flags == [] then 0 else Tally(flags[..|flags| - 1]) + One(flags[|flags| - 1])
  }

  /** Entries of flagged workers, counted worker by worker. */
  function FlaggedEntries(flags: seq<bool>, es: seq<Entry>): nat {
    if flags == [] then 0
    else FlaggedEntries(flags[..|flags| - 1], es) + if flags[|flags| - 1] then Count(es, |flags| - 1) else 0
  }

  lemma {:induction false} FlaggedSnoc(flags: seq<bool>, es: seq<Entry>, e: Entry)
    ensures FlaggedEntries(flags, es + [e])
         == FlaggedEntries(flags, es) + One(e.worker < |flags| && flags[e.worker])
  {
    if flags != [] {
      FlaggedSnoc(flags[..|flags| - 1], es, e);
      CountSnoc(es, e, |flags| - 1);
    }
  }

  lemma {:induction false} FlaggedNone(flags: seq<bool>)
    ensures FlaggedEntries(flags, []) == 0
  {
    if flags != [] {
      FlaggedNone(flags[..|flags| - 1]);
    }
  }

  /** Counting the ready entries in the order they were appended or worker by worker is the same. */
  lemma {:induction false} PassedByWorker(es: seq<Entry>, flags: seq<bool>)
    requires forall k :: 0 <= k < |es| ==> es[k].worker < |flags| && flags[es[k].worker] == es[k].ready
    ensures Passed(es) == FlaggedEntries(flags, es)
  {
    if es == [] {
      FlaggedNone(flags);
    } else {
      var init := es[..|es| - 1];
      assert forall k :: 0 <= k < |init| ==> init[k] == es[k];
      PassedByWorker(init, flags);
      FlaggedSnoc(flags, init, es[|es| - 1]);
      assert es == init + [es[|es| - 1]];
    }
  }

  lemma {:induction false} TotalByWorker(es: seq<Entry>, flags: seq<bool>)
    requires forall k :: 0 <= k < |es| ==> es[k].worker < |flags| && flags[es[k].worker]
    ensures |es| == FlaggedEntries(flags, es)
  {
    if es == [] {
      FlaggedNone(flags);
    } else {
      var init := es[..|es| - 1];
      assert forall k :: 0 <= k < |init| ==> init[k] == es[k];
      TotalByWorker(init, flags);
      FlaggedSnoc(flags, init, es[|es| - 1]);
      assert es == init + [es[|es| - 1]];
    }
  }

  lemma {:induction false} FlaggedOnce(flags: seq<bool>, es: seq<Entry>)
    requires forall i :: 0 <= i < |flags| ==> flags[i] ==> Count(es, i) == 1
    ensures FlaggedEntries(flags, es) == Tally(flags)
  {
    if flags != [] {
      FlaggedOnce(flags[..|flags| - 1], es);
    }
  }

  // ---------------------------------------------------------------- main result

  function CompleteFlags(configs: seq<Config>): seq<bool> {
    seq(|configs|, i requires 0 <= i < |configs| =>
      configs[i].pvc != "" && configs[i].namespace != "" && configs[i].snapshotClass != "")
  }

  function ReadyFlags(ws: seq<Worker>): seq<bool> {
    seq(|ws|, i requires 0 <= i < |ws| => ws[i].ready)
  }

  /**
   For every list of configs and every schedule: once Wait has returned, each config with all three
   fields set has exactly one result and no other config has any; every result carries the claim and
   the namespace of its config, and is ready exactly if creation and waiting both succeeded in the
   schedule; the count of passed tests is the number of ready workers, the reported errors are those
   of the others, and the combined error is nil exactly when every test passed.
   */
  lemma EveryScheduleReports(configs: seq<Config>, es: seq<Event>)
    ensures var s := Run(configs, es); s.waited ==>
      && (forall i :: 0 <= i < |configs| ==>
            Count(s.results, i)
            == if configs[i].pvc != "" && configs[i].namespace != "" && configs[i].snapshotClass != "" then 1 else 0)
      && (forall k :: 0 <= k < |s.results| ==>
            var w := s.results[k].worker;
            && w < |configs| && s.results[k].pvc == configs[w].pvc && s.results[k].namespace == configs[w].namespace
            && (s.results[k].ready <==> Succeeded(configs, es, w, Creating) && Succeeded(configs, es, w, Waiting)))
      && |s.results| == Tally(CompleteFlags(configs))
      && Passed(s.results) == Tally(ReadyFlags(s.workers))
      && (forall k :: 0 <= k < |s.results| ==> (s.results[k].worker in s.errors <==> !s.results[k].ready))
      && (s.errors == [] <==> Passed(s.results) == |s.results|)
  {
    RunKeepsInv(configs, es);
    var s := Run(configs, es);
    forall i | 0 <= i < |configs|
      ensures s.workers[i].ready <==> Succeeded(configs, es, i, Creating) && Succeeded(configs, es, i, Waiting)
    {
      ReadyExactly(configs, es, i);
    }
    hide Run, Succeeded;
    if s.waited {
      WaitedReports(s);
      WaitedErrors(s);
      hide Inv, Count, Passed, Tally;
    }
  }

  /** Some call of the schedule is the step of worker `i` at `pc`, and it goes well. */
  predicate Succeeded(configs: seq<Config>, es: seq<Event>, i: nat, pc: Pc) {
    i < |configs| && es != [] &&
    var init := es[..|es| - 1];
    Succeeded(configs, init, i, pc) || (es[|es| - 1] == Work(i, true) && Run(configs, init).workers[i].pc == pc)
  }

  /** A worker is ready exactly if its creation and its waiting succeeded. */
  lemma {:induction false} ReadyExactly(configs: seq<Config>, es: seq<Event>, i: nat)
    requires i < |configs|
    ensures var w := Run(configs, es).workers[i];
      && (w.ready <==> Succeeded(configs, es, i, Creating) && Succeeded(configs, es, i, Waiting))
      && (w.ready <==> Succeeded(configs, es, i, Waiting))
      && (w.pc == Waiting ==> Succeeded(configs, es, i, Creating))
  {
    if es != [] {
      var init, e := es[..|es| - 1], es[|es| - 1];
      ReadyExactly(configs, init, i);
      ReadyStep(Run(configs, init), e, i);
      hide Step;
    }
  }

  /** How a step moves a worker into waiting, and how it makes it ready. */
  lemma ReadyStep(s: State, e: Event, i: nat)
    requires Shape(s) && i < |s.workers|
    ensures |Step(s, e).workers| == |s.workers|
    ensures var w, w' := s.workers[i], Step(s, e).workers[i];
      && (w'.ready <==> w.ready || (e == Work(i, true) && w.pc == Waiting))
      && (w'.pc == Waiting ==> w.pc == Waiting || (e == Work(i, true) && w.pc == Creating))
  {
    hide WorkStep, IsComplete;
    if e.Work? && e.worker < |s.workers| {
      WorkFrame(s, e.worker, e.ok);
      OwnReadyStep(s, e.worker, e.ok);
    }
  }

  lemma OwnReadyStep(s: State, i: nat, ok: bool)
    requires Shape(s) && i < |s.workers|
    ensures i < |WorkStep(s, i, ok).workers|
    ensures var w, w' := s.workers[i], WorkStep(s, i, ok).workers[i];
      && (w'.ready <==> w.ready || (ok && w.pc == Waiting))
      && (w'.pc == Waiting ==> ok && w.pc == Creating)
  {
    hide EntryOf;
  }

  lemma WaitedErrors(s: State)
    requires Inv(s) && s.waited
    ensures forall k :: 0 <= k < |s.results| ==>
      var w := s.results[k].worker;
      && w < |s.configs| && s.results[k].pvc == s.configs[w].pvc && s.results[k].namespace == s.configs[w].namespace
      && s.results[k].ready == s.workers[w].ready && (w in s.errors <==> !s.results[k].ready)
  {
    AllFinished(s);
    hide Count, IsComplete;
    forall k | 0 <= k < |s.results|
      ensures var w := s.results[k].worker;
        && w < |s.configs| && s.results[k].pvc == s.configs[w].pvc && s.results[k].namespace == s.configs[w].namespace
        && s.results[k].ready == s.workers[w].ready && (w in s.errors <==> !s.results[k].ready)
    {
      assert EntryOk(s, k);
      assert WorkerOk(s, s.results[k].worker);
    }
  }

  lemma WaitedReports(s: State)
    requires Inv(s) && s.waited
    ensures forall i :: 0 <= i < |s.configs| ==> Count(s.results, i) == One(IsComplete(s.configs[i]))
    ensures forall k :: 0 <= k < |s.results| ==>
      s.results[k].worker < |s.configs| && s.results[k] == EntryOf(s, s.results[k].worker)
    ensures |s.results| == Tally(CompleteFlags(s.configs))
    ensures Passed(s.results) == Tally(ReadyFlags(s.workers))
    ensures s.errors == [] <==> Passed(s.results) == |s.results|
  {
    AllFinished(s);
    forall k | 0 <= k < |s.results|
      ensures s.results[k].worker < |s.configs| && s.results[k] == EntryOf(s, s.results[k].worker)
      ensures IsComplete(s.configs[s.results[k].worker])
    {
      assert EntryOk(s, k);
      assert WorkerOk(s, s.results[k].worker);
    }
    ErrorsTell(s);
    PassedAll(s.results);
    hide Inv, IsComplete, Count;
    var complete, ready := CompleteFlags(s.configs), ReadyFlags(s.workers);
    TotalByWorker(s.results, complete);
    FlaggedOnce(complete, s.results);
    PassedByWorker(s.results, ready);
    FlaggedOnce(ready, s.results);
  }

  lemma AllFinished(s: State)
    requires Inv(s) && s.waited
    ensures forall i :: 0 <= i < |s.workers| ==>
      && (if IsComplete(s.configs[i]) then s.workers[i].pc.Finished? else s.workers[i].pc.NotStarted? && !s.workers[i].ready)
      && Count(s.results, i) == One(IsComplete(s.configs[i]))
  {
    ActiveZero(s.workers);
    hide Count, IsComplete;
    forall i | 0 <= i < |s.workers|
      ensures if IsComplete(s.configs[i]) then s.workers[i].pc.Finished? else s.workers[i].pc.NotStarted? && !s.workers[i].ready
      ensures Count(s.results, i) == One(IsComplete(s.configs[i]))
    {
      assert WorkerOk(s, i);
      assert !Active(s.workers[i]);
    }
  }

  lemma ErrorsTell(s: State)
    requires Inv(s)
    requires forall i :: 0 <= i < |s.workers| ==> s.workers[i].pc.Finished? || s.workers[i].pc.NotStarted?
    ensures s.errors == [] <==> forall k :: 0 <= k < |s.results| ==> s.results[k].ready
  {
    if s.errors != [] {
      var i := s.errors[0];
      assert WorkerOk(s, i);
      var k := FindEntry(s.results, i);
      assert EntryOk(s, k);
    }
    if k :| 0 <= k < |s.results| && !s.results[k].ready {
      assert EntryOk(s, k);
      assert WorkerOk(s, s.results[k].worker);
    }
  }

  lemma {:induction false} FindEntry(es: seq<Entry>, i: nat) returns (k: nat)
    requires Count(es, i) > 0
    ensures k < |es| && es[k].worker == i
  {
    k := |es| - 1;
    if es[k].worker != i {
      k := FindEntry(es[..k], i);
    }
  }
}
