/**
 The reconciler of DataProtectionTest objects as an object with state: the stored object on
 the API server and the in-memory copy `dpt`. Every API call first lets other writers act,
 then answers or fails. The ghost `history` records the calls, and every reconcile is a path
 of the state machine, so whatever holds of all runs of the machine holds of it.
 */
module DptReconciler {

  import opened Wrappers
  import opened DptMachine

  datatype Reply = Accepted | Conflict | Error

  /** An edit by another writer, a failing call or a crash. */
  predicate IsNoise(e: Event) {
    match e
    case Edit(_) => true
    case StatusEdit(_) => true
    case Crash => true
    case Begin(ok) => !ok
    case Read(ok) => !ok
    case Put(answer, _) => answer.Broken?
    case Reset(answer) => answer.Broken?
    case _ => false
  }

  function Noise(es: seq<Event>): nat {
    if es == [] then 0 else Noise(es[..|es| - 1]) + One(IsNoise(es[|es| - 1]))
  }

  /** A failing call or a crash. */
  predicate IsError(e: Event) {
    IsNoise(e) && !e.Edit? && !e.StatusEdit?
  }

  function Errors(es: seq<Event>): nat {
    if es == [] then 0 else Errors(es[..|es| - 1]) + One(IsError(es[|es| - 1]))
  }

  /** The event is a status update that the API server refuses. */
  predicate IsRefused(w: World, e: Event) {
    e.Put? && e.answer.Answered? && w.pc.Writing? && w.pc.latest.version != w.stored.version
  }

  function Refusals(w: World, es: seq<Event>): nat {
    if es == [] then 0 else Refusals(w, es[..|es| - 1]) + One(IsRefused(Run(w, es[..|es| - 1]), es[|es| - 1]))
  }

  /** What a reconcile that measured `measured` makes of `o` if nothing interferes. */
  predicate Progress(o: Object, r: Object, runs: nat, ok: bool, measured: Results) {
    if Settled(o) then r == o && runs == 0 && ok
    else
      && r.spec == o.spec.(forceRun := false)
      && if o.status.phase != InProgress
         then ok && runs == 0 && r.status == o.status.(phase := InProgress, lastTested := r.status.lastTested)
         else runs <= 1 && (ok ==> runs == 1) && Ended(o, o.(status := r.status), ok, measured)
  }

  predicate Ended(o: Object, r: Object, ok: bool, measured: Results) {
    && r.spec == o.spec
    && r.status == if ok then o.status.(phase := Complete, errorMessage := "", results := measured)
                   else o.status.(phase := Failed, errorMessage := r.status.errorMessage)
  }

  class Reconciler {
    var stored: Versioned
    var dpt: Object
    ghost var history: seq<Event>
    ghost const spec0: Spec
    ghost const results0: Results

    constructor (spec: Spec, results: Results)
      ensures Valid() && World().pc.Idle? && World().runs == 0 && stored.obj.spec == spec
    {
      stored := Created(spec, results).stored;
      dpt := Created(spec, results).stored.obj;
      history := [];
      spec0, results0 := spec, results;
    }

    /** The state the machine has reached through the calls made so far. */
    ghost function World(): World
      reads this`history
    {
      Run(Created(spec0, results0), history)
    }

    ghost function Refused(): nat
      reads this`history
    {
      Refusals(Created(spec0, results0), history)
    }

    /** The state in front of the last call. */
    ghost function Before(): World
      reads this`history
      requires history != []
    {
      Run(Created(spec0, results0), history[..|history| - 1])
    }

    ghost predicate Valid()
      reads this`history, this`stored
    {
      World().stored == stored
    }

    lemma RunFacts()
      ensures World().runs <= 1 + World().switches + World().failures + StatusWrites(history)
      ensures OwnStatus(history) && World().stored.obj.status.phase == Complete ==> World().stored.obj.status.errorMessage == ""
    {
      RunsAreBounded(spec0, results0, history);
      if OwnStatus(history) {
        CompleteMeansNoError(spec0, results0, history);
      }
    }

    ghost method Record(e: Event)
      modifies this`history
      ensures World() == Step(old(World()), e)
      ensures history == old(history) + [e]
      ensures Noise(history) == Noise(old(history)) + One(IsNoise(e))
      ensures Errors(history) == Errors(old(history)) + One(IsError(e))
      ensures Refused() == old(Refused()) + One(IsRefused(old(World()), e)) && Before() == old(World())
    {
      history := history + [e];
      assert history[..|history| - 1] == old(history);
    }

    /** Other writers edit the spec or store a status, any number of times. */
    method Interleave()
      requires Valid()
      modifies this`stored, this`history
      ensures Valid() && World() == old(World()).(stored := stored, switches := World().switches)
      ensures old(history) <= history && Noise(old(history)) <= Noise(history)
      ensures Noise(history) == Noise(old(history)) ==> stored == old(stored) && World() == old(World())
      ensures Errors(history) == Errors(old(history)) && Refused() == old(Refused())
    {
      var n: nat := *;
      while n > 0
        invariant Valid() && World() == old(World()).(stored := stored, switches := World().switches)
        invariant old(history) <= history && Noise(old(history)) <= Noise(history)
        invariant Noise(history) == Noise(old(history)) ==> stored == old(stored) && World() == old(World())
        invariant Errors(history) == Errors(old(history)) && Refused() == old(Refused())
      {
        var spec: Spec, status: Status, toSpec: bool := *, *, *;
        if toSpec {
          stored := Versioned(stored.obj.(spec := spec), stored.version + 1);
          Record(Edit(spec));
        } else {
          stored := Versioned(stored.obj.(status := status), stored.version + 1);
          Record(StatusEdit(status));
        }
        n := n - 1;
      }
    }

    method Get() returns (r: Option<Versioned>)
      requires Valid()
      modifies this`stored, this`history
      ensures Valid() && World() == old(World()).(stored := stored, switches := World().switches)
      ensures old(history) <= history && Noise(old(history)) <= Noise(history)
      ensures Noise(history) == Noise(old(history)) ==> stored == old(stored) && World() == old(World())
      ensures Errors(history) == Errors(old(history)) && Refused() == old(Refused())
      ensures r.Some? ==> r.value == stored
    {
      Interleave();
      var ok: bool := *;
      r := if ok then Some(stored) else None;
    }

    /** A status update: refused unless it carries the stored version; the spec part is ignored. */
    method UpdateStatus(new_: Versioned, now: int) returns (r: Reply)
      requires Valid()
      requires World().pc.Writing?
      requires var pc := World().pc;
        new_ == pc.latest.(obj := pc.latest.obj.(status := Assign(pc.write, pc.latest.obj.status, now)))
      modifies this`stored, this`history
      ensures Valid() && old(history) <= history && Noise(old(history)) <= Noise(history)
      ensures Noise(history) == Noise(old(history)) && new_.version == old(stored).version ==>
        r == Accepted && stored.obj == old(stored).obj.(status := new_.obj.status)
      ensures Errors(history) == Errors(old(history)) + One(r == Error) && Refused() == old(Refused()) + One(r == Conflict)
      ensures r == Accepted ==>
        && history != [] && history[|history| - 1] == Put(Answered, now) && Before().pc == old(World()).pc
        && World() == Step(Before(), Put(Answered, now))
        && stored.version == Before().stored.version + 1
      ensures var pc := old(World()).pc; var w := World();
        && w.runs == old(World()).runs
        && (r == Accepted ==> w.failures == old(World()).failures && w.pc == Finish(w, pc.forced).pc)
        && (r == Error ==> w.failures == old(World()).failures + 1 && w.pc == Finish(w, pc.forced).pc)
        && (r == Conflict ==>
              if pc.attempts <= 1 then w.failures == old(World()).failures + 1 && w.pc == Finish(w, pc.forced).pc
              else w.failures == old(World()).failures && w.pc == Reading(pc.forced, pc.write, pc.attempts - 1))
    {
      Interleave();
      var broken: bool, applied: bool := *, *;
      var current := new_.version == stored.version;
      Record(Put(if broken then Broken(applied) else Answered, now));
      if current && (!broken || applied) {
        stored := Versioned(stored.obj.(status := new_.obj.status), stored.version + 1);
      }
      r := if broken then Error else if current then Accepted else Conflict;
    }

    /**
     The last call was the update that stored exactly the fields of `write`, over whatever was stored
     just before -- or the read that found the object done meanwhile.
     */
    ghost predicate Succeeded(write: Write)
      reads this`history, this`stored
      requires history != []
    {
      var last, before := history[|history| - 1], Before().stored;
      if last.Put?
      then stored.obj.spec == before.obj.spec && Wrote(write, before.obj.status, stored.obj.status)
      else
        && write.MarkInProgress? && last == Read(true) && stored == before && !before.obj.spec.forceRun
        && (before.obj.status.phase == Complete || before.obj.status.phase == Failed)
    }

    /** One attempt at a status write: read, assign, update. */
    method Attempt(write: Write, forced: bool, ghost attempts: nat) returns (r: Reply)
      requires Valid() && World().pc == Reading(forced, write, attempts) && attempts >= 1
      modifies this`stored, this`history
      ensures Valid() && old(history) <= history && Noise(old(history)) <= Noise(history)
      ensures Errors(history) == Errors(old(history)) + One(r == Error) && Refused() == old(Refused()) + One(r == Conflict)
      ensures World().runs == old(World()).runs
      ensures if r == Conflict && attempts > 1
              then World().pc == Reading(forced, write, attempts - 1) && World().failures == old(World()).failures
              else World().pc == (if forced then Resetting else Idle)
                   && World().failures == old(World()).failures + One(r != Accepted)
      ensures r == Accepted ==> history != [] && Succeeded(write)
      ensures Noise(history) == Noise(old(history)) ==>
        && r == Accepted && stored.obj.spec == old(stored).obj.spec
        && stored.obj.status == if SkipsMark(write, old(stored).obj) then old(stored).obj.status
                                else Assign(write, old(stored).obj.status, stored.obj.status.lastTested)
    {
      hide Noise, Errors, Refusals, Run;
      var latest := Get();
      Record(Read(latest.Some?));
      if latest.None? {
        return Error;
      }
      var obj := latest.value.obj;
      if write.MarkInProgress? && Settled(obj) {
        return Accepted;
      }
      var now: int := *;
      var status := obj.status;
      match write {
        case MarkInProgress =>
          status := status.(phase := InProgress);
          status := status.(lastTested := now);
        case MarkFailed(msg) =>
          status := status.(phase := Failed);
          status := status.(errorMessage := msg);
        case MarkComplete(results) =>
          status := status.(phase := Complete);
          status := status.(errorMessage := "");
          status := status.(results := results);
      }
      r := UpdateStatus(Versioned(obj.(status := status), latest.value.version), now);
      if r == Accepted {
        NoLostUpdate(spec0, results0, history[..|history| - 1], Answered, now);
      }
    }

    /**
     The retry loop around a status write. If no call fails, it succeeds exactly if at most four of
     its updates are refused.
     */
    method RetryOnConflict(write: Write, forced: bool) returns (ok: bool)
      requires Valid() && World().pc == Reading(forced, write, ATTEMPTS)
      modifies this`stored, this`history
      ensures Valid() && World().pc == (if forced then Resetting else Idle) && old(history) <= history
      ensures World().runs == old(World()).runs
      ensures World().failures == old(World()).failures + if ok then 0 else 1
      ensures Errors(old(history)) <= Errors(history) && old(Refused()) <= Refused()
      ensures Errors(history) == Errors(old(history)) ==> (ok <==> Refused() - old(Refused()) <= 4)
      ensures ok ==> history != [] && Succeeded(write)
      ensures Noise(old(history)) <= Noise(history)
      ensures Noise(history) == Noise(old(history)) ==>
        && ok && stored.obj.spec == old(stored).obj.spec
        && stored.obj.status == if SkipsMark(write, old(stored).obj) then old(stored).obj.status
                                else Assign(write, old(stored).obj.status, stored.obj.status.lastTested)
    {
      hide Noise, Errors, Refusals, Run;
      var attempts := ATTEMPTS;
      while true
        invariant old(history) <= history && Noise(old(history)) <= Noise(history)
        invariant attempts < ATTEMPTS ==> Noise(old(history)) < Noise(history)
        invariant attempts == ATTEMPTS ==> history == old(history) && stored == old(stored)
        invariant Valid() && 1 <= attempts && World().pc == Reading(forced, write, attempts)
        invariant World().runs == old(World()).runs && World().failures == old(World()).failures
        invariant Errors(history) == Errors(old(history)) && attempts + (Refused() - old(Refused())) == 5
        decreases attempts
      {
        var reply := Attempt(write, forced, attempts);
        if reply != Conflict {
          return reply == Accepted;
        }
        if attempts == 1 {
          return false;
        }
        attempts := attempts - 1;
      }
    }

    /** The deferred reset of the flag that was read. */
    method ResetForceRun()
      requires Valid() && World().pc.Resetting? && dpt.spec.forceRun
      modifies this
      ensures Valid() && World().pc.Idle? && World().runs == old(World()).runs && old(history) <= history
      ensures dpt == old(dpt).(spec := old(dpt).spec.(forceRun := false))
      ensures Noise(old(history)) <= Noise(history)
      ensures Noise(history) == Noise(old(history)) ==>
        stored.obj == old(stored).obj.(spec := old(stored).obj.spec.(forceRun := false))
    {
      var original := dpt;
      dpt := dpt.(spec := dpt.spec.(forceRun := false));
      if !original.spec.forceRun {
        assert false;
      }
      Interleave();
      var broken: bool, applied: bool := *, *;
      Record(Reset(if broken then Broken(applied) else Answered));
      if !broken || applied {
        stored := Versioned(stored.obj.(spec := stored.obj.spec.(forceRun := false)), stored.version + 1);
      }
    }

    /** The test section, which ends with the object complete or failed. */
    method TestSection(forced: bool) returns (ok: bool)
      requires Valid() && World().pc == Testing(forced)
      modifies this
      ensures Valid() && World().pc == (if forced then Resetting else Idle) && dpt.spec == old(dpt).spec
      ensures World().runs == old(World()).runs
      ensures old(history) <= history && Noise(old(history)) <= Noise(history)
      ensures Noise(history) == Noise(old(history)) ==> Ended(old(stored).obj, stored.obj, ok, dpt.status.results)
    {
      hide Noise, Errors, Refusals, Run;
      Interleave();
      var provider: bool, problem: string := *, *;
      if !provider {
        Record(Test(ProviderError(problem)));
        var _ := RetryOnConflict(MarkFailed(problem), forced);
        return false;
      }
      var measured: Results := *;
      dpt := dpt.(status := dpt.status.(results := measured));
      Record(Test(Measured(dpt.status.results)));
      ok := RetryOnConflict(MarkComplete(dpt.status.results), forced);
    }

    /** The body of a reconcile on an object that is in progress. */
    method RunTests(forced: bool) returns (ok: bool)
      requires Valid() && World().pc == Resolving(forced) && dpt.spec.forceRun == forced
      modifies this
      ensures Valid() && World().pc == (if forced then Resetting else Idle) && dpt.spec == old(dpt).spec
      ensures old(World()).runs <= World().runs <= old(World()).runs + 1 && (ok ==> World().runs == old(World()).runs + 1)
      ensures old(history) <= history && Noise(old(history)) <= Noise(history)
      ensures Noise(history) == Noise(old(history)) ==> Ended(old(stored).obj, stored.obj, ok, dpt.status.results)
    {
      hide Noise, Errors, Refusals, Run;
      Interleave();
      var resolved: bool, msg: string := *, *;
      Record(Resolve(resolved, msg));
      if !resolved {
        var _ := RetryOnConflict(MarkFailed(msg), forced);
        return false;
      }
      ok := TestSection(forced);
    }

    /** `Reconcile`. Undisturbed, it makes exactly the progress that is due. */
    method Reconcile() returns (ok: bool)
      requires Valid() && World().pc.Idle?
      modifies this
      ensures Valid() && World().pc.Idle? && old(history) <= history
      ensures World().runs <= 1 + World().switches + World().failures + StatusWrites(history)
      ensures OwnStatus(history) && stored.obj.status.phase == Complete ==> stored.obj.status.errorMessage == ""
      ensures Noise(history) == Noise(old(history)) ==>
        && old(World()).runs <= World().runs
        && Progress(old(stored).obj, stored.obj, World().runs - old(World()).runs, ok, dpt.status.results)
    {
      hide Noise, Errors, Refusals, Run;
      var got := Get();
      Record(Begin(got.Some?));
      RunFacts();
      if got.None? {
        return false;
      }
      dpt := got.value.obj;
      if Settled(dpt) {
        return true;
      }
      var forced := dpt.spec.forceRun;
      if dpt.status.phase != InProgress {
        ok := RetryOnConflict(MarkInProgress, forced);
      } else {
        ok := RunTests(forced);
      }
      if forced {
        ResetForceRun();
      }
      RunFacts();
    }
  }
}
