/**
 The DataProtectionTest controller as a state machine over single API calls. The API server
 keeps one versioned object; a status update carries the version it was read at and is
 refused when another write came in between. Others may edit the spec or store any status
 between any two calls, every call may fail (with or without having taken effect), and the controller may
 crash at any point. Reconciles of the object are serial and read the stored object.
 */
module DptMachine {

  datatype Phase = New | InProgress | Complete | Failed

  /** `rest` stands for every other spec field. */
  datatype Spec = Spec(forceRun: bool, rest: int)

  /** The five result fields of the status, by content. */
  datatype Results = Results(uploadTest: int, snapshotTests: int, snapshotSummary: int, bucketMetadata: int, s3Vendor: int)

  datatype Status = Status(phase: Phase, lastTested: int, errorMessage: string, results: Results)

  datatype Object = Object(spec: Spec, status: Status)

  datatype Versioned = Versioned(obj: Object, version: nat)

  predicate Terminal(p: Phase) {
    p == Complete || p == Failed
  }

  /** Done and not asked to run again. */
  predicate Settled(o: Object) {
    Terminal(o.status.phase) && !o.spec.forceRun
  }

  // ---------------------------------------------------------------- retried status writes

  /** The three status writes of a reconcile. */
  datatype Write =
    | MarkInProgress
    | MarkFailed(msg: string)
    | MarkComplete(results: Results)

  /** What the write assigns; every other field keeps the value that was read. */
  function Assign(w: Write, s: Status, now: int): Status {
    match w
    case MarkInProgress => s.(phase := InProgress, lastTested := now)
    case MarkFailed(msg) => s.(phase := Failed, errorMessage := msg)
    case MarkComplete(results) => s.(phase := Complete, errorMessage := "", results := results)
  }

  /** Attempts of the default retry policy. */
  const ATTEMPTS: nat := 5

  // ---------------------------------------------------------------- states and events

  /** Where a reconcile stands; `forced` says that it read forceRun and owes the reset. */
  datatype Pc =
    | Idle
    | Reading(forced: bool, write: Write, attempts: nat)
    | Writing(forced: bool, write: Write, latest: Versioned, attempts: nat)
    | Resolving(forced: bool)
    | Testing(forced: bool)
    | Resetting

  datatype World = World(
    stored: Versioned,
    pc: Pc,
    runs: nat,        // executions of the test section
    switches: nat,    // times a user switched forceRun on after creation
    failures: nat     // operations that ended in an error, and crashes
  )

  /** How a write call ends for the caller. */
  datatype Answer = Answered | Broken(applied: bool)

  datatype TestOutcome = ProviderError(msg: string) | Measured(results: Results)

  datatype Event =
    | Edit(spec: Spec)
    | StatusEdit(status: Status)
    | Begin(ok: bool)
    | Read(ok: bool)
    | Put(answer: Answer, now: int)
    | Resolve(ok: bool, msg: string)
    | Test(outcome: TestOutcome)
    | Reset(answer: Answer)
    | Crash

  function Created(spec: Spec, results: Results): World {
    World(Versioned(Object(spec, Status(New, 0, "", results)), 0), Idle, 0, 0, 0)
  }

  function Stored(w: World, o: Object): World {
    w.(stored := Versioned(o, w.stored.version + 1))
  }

  /** The reconcile's body is over; a forced one still resets the flag. */
  function Finish(w: World, forced: bool): World {
    w.(pc := if forced then Resetting else Idle)
  }

  function Fail(w: World): World {
    w.(failures := w.failures + 1)
  }

  predicate SkipsMark(write: Write, o: Object) {
    write.MarkInProgress? && Settled(o)
  }

  function PutStep(w: World, answer: Answer, now: int): World
    requires w.pc.Writing?
  {
    var Writing(forced, write, latest, attempts) := w.pc;
    var current := latest.version == w.stored.version;
    var written := Stored(w, Object(w.stored.obj.spec, Assign(write, latest.obj.status, now)));
    match answer
    case Broken(applied) => Fail(Finish(if applied && current then written else w, forced))
    case Answered =>
      if current then Finish(written, forced)
      else if attempts <= 1 then Fail(Finish(w, forced))
      else w.(pc := Reading(forced, write, attempts - 1))
  }

  function ResetStep(w: World, answer: Answer): World {
    var o := w.stored.obj;
    var cleared := Stored(w, o.(spec := o.spec.(forceRun := false))).(pc := Idle);
    match answer
    case Answered => cleared
    case Broken(applied) => Fail(if applied then cleared else w.(pc := Idle))
  }

  function BeginStep(w: World): World {
    var o := w.stored.obj;
    if Settled(o) then w
    else if o.status.phase != InProgress then w.(pc := Reading(o.spec.forceRun, MarkInProgress, ATTEMPTS))
    else w.(pc := Resolving(o.spec.forceRun))
  }

  /** One step; an event that is not enabled changes nothing. */
  function Step(w: World, e: Event): World {
    var o := w.stored.obj;
    match e
    case Edit(spec) =>
      Stored(w, o.(spec := spec)).(switches := w.switches + if spec.forceRun && !o.spec.forceRun then 1 else 0)
    case StatusEdit(status) => Stored(w, o.(status := status))
    case Crash => Fail(w.(pc := Idle))
    case Begin(ok) =>
      if !w.pc.Idle? then w else if ok then BeginStep(w) else Fail(w)
    case Read(ok) =>
      if !w.pc.Reading? then w
      else if !ok then Fail(Finish(w, w.pc.forced))
      else if SkipsMark(w.pc.write, o) then Finish(w, w.pc.forced)
      else w.(pc := Writing(w.pc.forced, w.pc.write, w.stored, w.pc.attempts))
    case Put(answer, now) =>
      if !w.pc.Writing? then w else PutStep(w, answer, now)
    case Resolve(ok, msg) =>
      if !w.pc.Resolving? then w
      else if ok then w.(pc := Testing(w.pc.forced), runs := w.runs + 1)
      else w.(pc := Reading(w.pc.forced, MarkFailed(msg), ATTEMPTS))
    case Test(outcome) =>
      if !w.pc.Testing? then w
      else w.(pc := Reading(w.pc.forced,
                            match outcome case ProviderError(msg) => MarkFailed(msg) case Measured(r) => MarkComplete(r),
                            ATTEMPTS))
    case Reset(answer) =>
      if !w.pc.Resetting? then w else ResetStep(w, answer)
  }

  function Run(w: World, es: seq<Event>): World {
    if es == [] then w else Step(Run(w, es[..|es| - 1]), es[|es| - 1])
  }

  // ---------------------------------------------------------------- invariant

  /** A copy with the stored version is the stored object: every write takes a new version. */
  predicate CopyValid(w: World) {
    w.pc.Writing? ==>
      && w.pc.latest.version <= w.stored.version
      && (w.pc.latest.version == w.stored.version ==> w.pc.latest == w.stored)
  }

  /** While only the running reconcile moves the phase, it knows the phase at each of its calls. */
  predicate PhaseKnown(w: World) {
    var o := w.stored.obj;
    match w.pc
    case Idle => true
    case Resetting => true
    case Resolving(_) => o.status.phase == InProgress
    case Testing(_) => o.status.phase == InProgress
    case Reading(forced, write, _) => WritePhase(forced, write, o)
    case Writing(forced, write, latest, _) =>
      WritePhase(forced, write, o) && (write.MarkInProgress? ==> !Settled(latest.obj))
  }

  predicate WritePhase(forced: bool, write: Write, o: Object) {
    if write.MarkInProgress?
    then o.status.phase != InProgress && (Terminal(o.status.phase) ==> forced)
    else o.status.phase == InProgress
  }

  predicate CleanWhenComplete(w: World) {
    w.stored.obj.status.phase == Complete ==> w.stored.obj.status.errorMessage == ""
  }

  function One(b: bool): nat {
    if b then 1 else 0
  }

  /** Executions of the test section that the present state can still cause without new input. */
  function Pending(w: World): nat {
    var o := w.stored.obj;
    match w.pc
    case Idle => One(!Settled(o))
    case Resolving(forced) => 1 + One(!forced && o.spec.forceRun)
    case Testing(forced) => One(!forced && o.spec.forceRun)
    case Reading(forced, write, _) => if write.MarkInProgress? then 1 else One(!forced && o.spec.forceRun)
    case Writing(forced, write, _, _) => if write.MarkInProgress? then 1 else One(!forced && o.spec.forceRun)
    case Resetting => One(!Terminal(o.status.phase))
  }

  /** `writes` is the number of status writes by others so far. */
  predicate Bounded(w: World, writes: nat) {
    w.runs + Pending(w) <= 1 + w.switches + w.failures + writes
  }

  predicate Inv(w: World) {
    CopyValid(w) && PhaseKnown(w) && CleanWhenComplete(w)
  }

  lemma StepKeepsCopy(w: World, e: Event)
    requires CopyValid(w)
    ensures CopyValid(Step(w, e))
  {
  }

  lemma {:induction false} RunKeepsCopy(w: World, es: seq<Event>)
    requires CopyValid(w)
    ensures CopyValid(Run(w, es))
  {
    if es != [] {
      RunKeepsCopy(w, es[..|es| - 1]);
      StepKeepsCopy(Run(w, es[..|es| - 1]), es[|es| - 1]);
    }
  }

  lemma StepKeepsPhase(w: World, e: Event)
    requires CopyValid(w) && PhaseKnown(w) && !e.StatusEdit?
    ensures PhaseKnown(Step(w, e))
  {
  }

  lemma StepKeepsClean(w: World, e: Event)
    requires CopyValid(w) && CleanWhenComplete(w) && !e.StatusEdit?
    ensures CleanWhenComplete(Step(w, e))
  {
  }

  /** Every step that could cause another execution pays for it: a switch, a failure or a foreign write. */
  lemma StepKeepsBound(w: World, e: Event, writes: nat)
    requires Bounded(w, writes)
    ensures Bounded(Step(w, e), writes + One(e.StatusEdit?))
  {
  }

  function StatusWrites(es: seq<Event>): nat {
    if es == [] then 0 else StatusWrites(es[..|es| - 1]) + One(es[|es| - 1].StatusEdit?)
  }

  lemma {:induction false} RunKeepsBound(w: World, es: seq<Event>)
    requires Bounded(w, 0)
    ensures Bounded(Run(w, es), StatusWrites(es))
  {
    if es != [] {
      var init := es[..|es| - 1];
      RunKeepsBound(w, init);
      StepKeepsBound(Run(w, init), es[|es| - 1], StatusWrites(init));
    }
  }

  lemma StepKeepsInv(w: World, e: Event)
    requires Inv(w) && !e.StatusEdit?
    ensures Inv(Step(w, e))
  {
    StepKeepsCopy(w, e);
    StepKeepsPhase(w, e);
    StepKeepsClean(w, e);
  }

  /** Nobody but the controller writes the status. */
  predicate OwnStatus(es: seq<Event>) {
    forall i :: 0 <= i < |es| ==> !es[i].StatusEdit?
  }

  lemma {:induction false} RunKeepsInv(w: World, es: seq<Event>)
    requires Inv(w) && OwnStatus(es)
    ensures Inv(Run(w, es))
  {
    if es != [] {
      RunKeepsInv(w, es[..|es| - 1]);
      StepKeepsInv(Run(w, es[..|es| - 1]), es[|es| - 1]);
    }
  }

  // ---------------------------------------------------------------- main results

  /**
   In every run, the test section executes at most once for the creation, once for every time a
   user switches forceRun on, once for every operation that failed, and once for every status write
   by somebody else.
   */
  lemma RunsAreBounded(spec: Spec, results: Results, es: seq<Event>)
    ensures var w := Run(Created(spec, results), es); w.runs <= 1 + w.switches + w.failures + StatusWrites(es)
  {
    RunKeepsBound(Created(spec, results), es);
  }

  /** While nobody else writes the status, every object in phase Complete has an empty error message. */
  lemma CompleteMeansNoError(spec: Spec, results: Results, es: seq<Event>)
    requires OwnStatus(es)
    ensures var s := Run(Created(spec, results), es).stored.obj.status; s.phase == Complete ==> s.errorMessage == ""
  {
    RunKeepsInv(Created(spec, results), es);
  }

  /**
   A status write that reaches the store changes exactly the fields it assigns, relative to the
   version stored immediately before, whatever others wrote to spec and status since the reconcile
   began: a write that would undo another one is refused.
   */
  lemma NoLostUpdate(spec: Spec, results: Results, es: seq<Event>, answer: Answer, now: int)
    ensures var w := Run(Created(spec, results), es);
      var w' := Step(w, Put(answer, now));
      w'.stored != w.stored ==>
        var before, after := w.stored.obj.status, w'.stored.obj.status;
        && w.pc.Writing? && w'.stored.version == w.stored.version + 1
        && w'.stored.obj.spec == w.stored.obj.spec
        && match w.pc.write
           case MarkInProgress => after == Status(InProgress, now, before.errorMessage, before.results)
           case MarkFailed(msg) => after == Status(Failed, before.lastTested, msg, before.results)
           case MarkComplete(r) => after == Status(Complete, before.lastTested, "", r)
  {
    RunKeepsCopy(Created(spec, results), es);
  }

  /** No status writes by others, and no edit that leaves forceRun on. */
  predicate LeavesOff(es: seq<Event>) {
    forall i :: 0 <= i < |es| ==> !es[i].StatusEdit? && (es[i].Edit? ==> !es[i].spec.forceRun)
  }

  predicate NoEdits(es: seq<Event>) {
    forall i :: 0 <= i < |es| ==> !es[i].Edit?
  }

  /** Whatever reconcile is under way, its step leaves a settled object alone. */
  lemma SettledStep(w: World, e: Event)
    requires CopyValid(w) && PhaseKnown(w) && Settled(w.stored.obj) && LeavesOff([e])
    ensures var w' := Step(w, e);
      && w'.stored.obj.status == w.stored.obj.status && w'.runs == w.runs && Settled(w'.stored.obj)
      && (!e.Edit? ==> w'.stored.obj == w.stored.obj)
  {
    assert [e][0] == e;
  }

  /**
   An object that is settled -- also one that a user settled by switching forceRun off while a
   reconcile was under way -- keeps its status and is not executed until somebody switches forceRun
   on or writes the status; without edits it does not change at all.
   */
  lemma {:induction false} SettledStays(w: World, es: seq<Event>)
    requires CopyValid(w) && PhaseKnown(w) && Settled(w.stored.obj) && LeavesOff(es)
    ensures var w' := Run(w, es);
      && CopyValid(w') && PhaseKnown(w') && Settled(w'.stored.obj)
      && w'.stored.obj.status == w.stored.obj.status && w'.runs == w.runs
      && (NoEdits(es) ==> w'.stored.obj == w.stored.obj)
  {
    hide CopyValid, PhaseKnown, Settled, Step;
    if es != [] {
      var init, e := es[..|es| - 1], es[|es| - 1];
      assert LeavesOff(init) && LeavesOff([e]) && (NoEdits(es) ==> NoEdits(init));
      SettledStays(w, init);
      StepKeepsCopy(Run(w, init), e);
      StepKeepsPhase(Run(w, init), e);
      SettledStep(Run(w, init), e);
    }
  }

  /** The same from creation on: `es` reaches a settled object, `more` follows. */
  lemma SettledForGood(spec: Spec, results: Results, es: seq<Event>, more: seq<Event>)
    requires OwnStatus(es) && LeavesOff(more)
    requires Settled(Run(Created(spec, results), es).stored.obj)
    ensures var w := Run(Created(spec, results), es);
      Run(w, more).stored.obj.status == w.stored.obj.status && Run(w, more).runs == w.runs
  {
    RunKeepsInv(Created(spec, results), es);
    SettledStays(Run(Created(spec, results), es), more);
  }

  // ---------------------------------------------------------------- retries

  /** What a write leaves of the status stored before it, field by field. */
  predicate Wrote(write: Write, before: Status, after: Status) {
    match write
    case MarkInProgress => after == Status(InProgress, after.lastTested, before.errorMessage, before.results)
    case MarkFailed(msg) => after == Status(Failed, before.lastTested, msg, before.results)
    case MarkComplete(r) => after == Status(Complete, before.lastTested, "", r)
  }

  /** A read, a foreign write that comes in between, and the update that is refused because of it. */
  datatype Round = Round(foreign: Event, now: int)

  predicate IsForeign(e: Event) {
    e.Edit? || e.StatusEdit?
  }

  function Rounds(rs: seq<Round>): seq<Event> {
    if rs == [] then [] else Rounds(rs[..|rs| - 1]) + [Read(true)] + [rs[|rs| - 1].foreign] + [Put(Answered, rs[|rs| - 1].now)]
  }

  /** The write is still due whenever it reads the object. */
  predicate StaysDue(w: World, write: Write, rs: seq<Round>) {
    && !SkipsMark(write, Run(w, Rounds(rs)).stored.obj)
    && (rs != [] ==> StaysDue(w, write, rs[..|rs| - 1]))
  }

  lemma {:induction false} OneRound(w: World, r: Round)
    requires w.pc.Reading? && w.pc.attempts >= 1 && !SkipsMark(w.pc.write, w.stored.obj) && IsForeign(r.foreign)
    ensures var w' := Step(Step(Step(w, Read(true)), r.foreign), Put(Answered, r.now));
      && w'.stored == Step(w, r.foreign).stored && w'.runs == w.runs
      && if w.pc.attempts == 1
         then w'.failures == w.failures + 1 && w'.pc == (if w.pc.forced then Resetting else Idle)
         else w'.failures == w.failures && w'.pc == Reading(w.pc.forced, w.pc.write, w.pc.attempts - 1)
  {
  }

  /** A write with five attempts is still trying after up to four refusals, and has failed after the fifth. */
  lemma {:induction false} RefusedRounds(w: World, forced: bool, write: Write, rs: seq<Round>)
    requires w.pc == Reading(forced, write, 5) && |rs| <= 5
    requires (forall i :: 0 <= i < |rs| ==> IsForeign(rs[i].foreign)) && (rs != [] ==> StaysDue(w, write, rs[..|rs| - 1]))
    ensures var w' := Run(w, Rounds(rs));
      && w'.runs == w.runs
      && if |rs| <= 4 then w'.pc == Reading(forced, write, 5 - |rs|) && w'.failures == w.failures
         else w'.pc == (if forced then Resetting else Idle) && w'.failures == w.failures + 1
  {
    if rs == [] {
      assert Rounds(rs) == [];
    } else {
      var init, r := rs[..|rs| - 1], rs[|rs| - 1];
      assert init != [] ==> StaysDue(w, write, init[..|init| - 1]);
      RefusedRounds(w, forced, write, init);
      assert !SkipsMark(write, Run(w, Rounds(init)).stored.obj);
      RoundsRun(w, rs);
      hide Step, Run, Rounds, StaysDue, SkipsMark;
      OneRound(Run(w, Rounds(init)), r);
    }
  }

  lemma {:induction false} RoundsRun(w: World, rs: seq<Round>)
    requires rs != []
    ensures var r := rs[|rs| - 1];
      Run(w, Rounds(rs)) == Step(Step(Step(Run(w, Rounds(rs[..|rs| - 1])), Read(true)), r.foreign), Put(Answered, r.now))
  {
    var es, r := Rounds(rs[..|rs| - 1]), rs[|rs| - 1];
    RunOne(w, es, Read(true));
    RunOne(w, es + [Read(true)], r.foreign);
    RunOne(w, es + [Read(true)] + [r.foreign], Put(Answered, r.now));
    hide Step, Run;
  }

  /**
   Whichever step begins a status write, up to four refused updates are retried: the write then
   succeeds, and what it stores is the status it read last -- after all the foreign writes -- with
   its own fields assigned.
   */
  lemma {:induction false} ConflictsAreRetried(v: World, e: Event, rs: seq<Round>, now: int)
    requires !v.pc.Reading? && !v.pc.Writing? && Step(v, e).pc.Reading?
    requires |rs| <= 4 && (forall i :: 0 <= i < |rs| ==> IsForeign(rs[i].foreign))
    requires StaysDue(Step(v, e), Step(v, e).pc.write, rs)
    ensures var w := Step(v, e);
      var before := Run(w, Rounds(rs));
      var w' := Run(w, Rounds(rs) + [Read(true)] + [Put(Answered, now)]);
      && w'.failures == w.failures && w'.pc == (if w.pc.forced then Resetting else Idle)
      && w'.stored.obj.spec == before.stored.obj.spec && Wrote(w.pc.write, before.stored.obj.status, w'.stored.obj.status)
  {
    var w := Step(v, e);
    assert w.pc.attempts == 5;
    RefusedRounds(w, w.pc.forced, w.pc.write, rs);
    var es := Rounds(rs);
    RunOne(w, es, Read(true));
    RunOne(w, es + [Read(true)], Put(Answered, now));
    LastAttempt(Run(w, es), now);
    hide Run, Step;
  }

  /** The fifth refusal ends the write with a failure. */
  lemma {:induction false} FifthConflictFails(v: World, e: Event, rs: seq<Round>)
    requires !v.pc.Reading? && !v.pc.Writing? && Step(v, e).pc.Reading?
    requires |rs| == 5 && (forall i :: 0 <= i < |rs| ==> IsForeign(rs[i].foreign))
    requires StaysDue(Step(v, e), Step(v, e).pc.write, rs[..4])
    ensures var w := Step(v, e);
      var w' := Run(w, Rounds(rs));
      w'.failures == w.failures + 1 && w'.pc == (if w.pc.forced then Resetting else Idle)
  {
    var w := Step(v, e);
    assert w.pc.attempts == 5;
    RefusedRounds(w, w.pc.forced, w.pc.write, rs);
  }

  lemma {:induction false} LastAttempt(w: World, now: int)
    requires w.pc.Reading? && !SkipsMark(w.pc.write, w.stored.obj)
    ensures var w' := Step(Step(w, Read(true)), Put(Answered, now));
      && w'.failures == w.failures && w'.pc == (if w.pc.forced then Resetting else Idle)
      && w'.stored.obj.spec == w.stored.obj.spec && Wrote(w.pc.write, w.stored.obj.status, w'.stored.obj.status)
  {
  }

  /** A reconcile begins, and does nothing at once exactly for an object that is done and not asked to run again. */
  lemma BeginsExactly(w: World)
    requires w.pc.Idle?
    ensures Step(w, Begin(true)) == w
      <==> (w.stored.obj.status.phase == Complete || w.stored.obj.status.phase == Failed) && !w.stored.obj.spec.forceRun
  {
  }

  // ---------------------------------------------------------------- undisturbed reconciles

  /** The calls of one reconcile when nothing fails and nobody else writes. */
  function Undisturbed(o: Object, now: int, r: Results): seq<Event> {
    var calls :=
      if Settled(o) then [Begin(true)]
      else if o.status.phase != InProgress then [Begin(true)] + [Read(true)] + [Put(Answered, now)]
      else [Begin(true)] + [Resolve(true, "")] + [Test(Measured(r))] + [Read(true)] + [Put(Answered, now)];
    if Settled(o) || !o.spec.forceRun then calls else calls + [Reset(Answered)]
  }

  lemma RunOne(w: World, es: seq<Event>, e: Event)
    ensures Run(w, es + [e]) == Step(Run(w, es), e)
  {
    assert (es + [e])[..|es|] == es;
  }

  /** One undisturbed reconcile marks the object or runs the tests, and clears the flag it read. */
  lemma UndisturbedReconcile(w: World, now: int, r: Results)
    requires w.pc.Idle? && !Settled(w.stored.obj)
    ensures var o := w.stored.obj;
      var w' := Run(w, Undisturbed(o, now, r));
      && w'.pc.Idle? && w'.failures == w.failures && w'.switches == w.switches
      && w'.stored.obj == Object(o.spec.(forceRun := false),
                                 Assign(if o.status.phase == InProgress then MarkComplete(r) else MarkInProgress, o.status, now))
      && w'.runs == w.runs + One(o.status.phase == InProgress)
  {
    if w.stored.obj.status.phase != InProgress {
      UndisturbedMark(w, now, r);
    } else {
      UndisturbedTest(w, now, r);
    }
  }

  lemma UndisturbedMark(w: World, now: int, r: Results)
    requires w.pc.Idle? && !Settled(w.stored.obj) && w.stored.obj.status.phase != InProgress
    ensures var o := w.stored.obj;
      var w' := Run(w, Undisturbed(o, now, r));
      && w' == World(w'.stored, Idle, w.runs, w.switches, w.failures)
      && w'.stored.obj == Object(o.spec.(forceRun := false), Assign(MarkInProgress, o.status, now))
  {
    assert Run(w, []) == w;
    hide Run;
    var e1 := [Begin(true)];
    var e2 := e1 + [Read(true)];
    var e3 := e2 + [Put(Answered, now)];
    RunOne(w, [], Begin(true));
    assert [] + e1 == e1;
    RunOne(w, e1, Read(true));
    RunOne(w, e2, Put(Answered, now));
    RunOne(w, e3, Reset(Answered));
  }

  function AfterTest(w: World, now: int, r: Results): World {
    Step(Step(Step(Step(Step(w, Begin(true)), Resolve(true, "")), Test(Measured(r))), Read(true)), Put(Answered, now))
  }

  lemma AfterTestIs(w: World, now: int, r: Results)
    requires w.pc.Idle? && w.stored.obj.status.phase == InProgress
    ensures var o := w.stored.obj;
      AfterTest(w, now, r)
      == World(Versioned(Object(o.spec, Assign(MarkComplete(r), o.status, now)), w.stored.version + 1),
               if o.spec.forceRun then Resetting else Idle, w.runs + 1, w.switches, w.failures)
  {
  }

  lemma UndisturbedTest(w: World, now: int, r: Results)
    requires w.pc.Idle? && w.stored.obj.status.phase == InProgress
    ensures var o := w.stored.obj;
      var w' := Run(w, Undisturbed(o, now, r));
      && w' == World(w'.stored, Idle, w.runs + 1, w.switches, w.failures)
      && w'.stored.obj == Object(o.spec.(forceRun := false), Assign(MarkComplete(r), o.status, now))
  {
    AfterTestIs(w, now, r);
    var e1 := [Begin(true)];
    var e2 := e1 + [Resolve(true, "")];
    var e3 := e2 + [Test(Measured(r))];
    var e4 := e3 + [Read(true)];
    var e5 := e4 + [Put(Answered, now)];
    RunOne(w, [], Begin(true));
    assert [] + e1 == e1;
    RunOne(w, e1, Resolve(true, ""));
    RunOne(w, e2, Test(Measured(r)));
    RunOne(w, e3, Read(true));
    RunOne(w, e4, Put(Answered, now));
    assert Run(w, e5) == AfterTest(w, now, r) by {
      hide Step;
    }
    RunOne(w, e5, Reset(Answered));
    hide Run, AfterTest;
  }

  /**
   Undisturbed reconciles settle any object that is not settled with exactly one execution of the
   test section: one reconcile when it is in progress, two otherwise.
   */
  lemma ExactlyOneRun(w: World, now: int, r: Results)
    requires w.pc.Idle? && !Settled(w.stored.obj)
    ensures var w1 := Run(w, Undisturbed(w.stored.obj, now, r));
      var w2 := Run(w1, Undisturbed(w1.stored.obj, now, r));
      && w2.pc.Idle? && Settled(w2.stored.obj) && w2.runs == w.runs + 1
      && w2.stored.obj.status.phase == Complete && w2.stored.obj.status.results == r
  {
    hide Undisturbed;
    UndisturbedReconcile(w, now, r);
    var w1 := Run(w, Undisturbed(w.stored.obj, now, r));
    if Settled(w1.stored.obj) {
      SettledAgain(w1, now, r);
    } else {
      UndisturbedReconcile(w1, now, r);
    }
  }

  lemma SettledAgain(w: World, now: int, r: Results)
    requires w.pc.Idle? && Settled(w.stored.obj)
    ensures Run(w, Undisturbed(w.stored.obj, now, r)) == w
  {
    RunOne(w, [], Begin(true));
    assert [] + [Begin(true)] == [Begin(true)];
  }
}
