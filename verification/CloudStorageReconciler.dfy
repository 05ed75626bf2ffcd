/**
 `Reconcile` of the CloudStorage controller, call by call, on the stored CR and the external
 bucket. The ghost `history` records the calls; every reconcile is a path of the lifecycle
 machine.
 */
module CloudStorageReconciler {

  import opened Wrappers
  import opened CloudStorage

  /** An act of a user or third party, a failing call or a crash. */
  predicate IsNoise(e: Event) {
    match e
    case Get(ok, clientOk) => !ok || !clientOk
    case Update(answer) => answer.Broken?
    case DeleteBucket(answer) => answer.Broken?
    case Exists(ok) => !ok
    case CreateBucket(answer) => answer.Broken?
    case SyncStatus(answer) => answer.Broken?
    case _ => true
  }

  function Noise(es: seq<Event>): nat {
    if es == [] then 0 else Noise(es[..|es| - 1]) + if IsNoise(es[|es| - 1]) then 1 else 0
  }

  class Reconciler {
    var cr: Option<Cr>
    var clock: nat
    var bucket: Bucket
    ghost var history: seq<Event>

    constructor ()
      ensures Valid() && Machine() == START
    {
      cr, clock, bucket := None, 0, NoBucket;
      history := [];
    }

    ghost function Machine(): World
      reads this`history
    {
      Run(START, history)
    }

    /** The fields are the machine's state, and its invariant holds. */
    ghost predicate Valid()
      reads this
    {
      Machine() == World(cr, clock, bucket, Machine().pc) && Inv(Machine())
    }

    /** The stored state, between two reconciles. */
    ghost function Fields(): World
      reads this
    {
      World(cr, clock, bucket, Idle)
    }

    ghost method Record(e: Event)
      modifies this`history
      ensures Machine() == Step(old(Machine()), e) && history == old(history) + [e]
      ensures Inv(Machine()) && Noise(history) == Noise(old(history)) + if IsNoise(e) then 1 else 0
    {
      history := history + [e];
      assert history[..|history| - 1] == old(history);
      RunKeepsInv(history);
    }

    /** Users and third parties act any number of times. */
    method Interleave()
      requires Valid()
      modifies this
      ensures Valid() && Machine().pc == old(Machine()).pc && old(history) <= history
      ensures Noise(old(history)) <= Noise(history)
      ensures Noise(history) == Noise(old(history)) ==> Fields() == old(Fields()) && Machine() == old(Machine())
    {
      hide Inv, Noise;
      var n: nat := *;
      while n > 0
        invariant Valid() && Machine().pc == old(Machine()).pc && old(history) <= history
        invariant Noise(old(history)) <= Noise(history)
        invariant Noise(history) == Noise(old(history)) ==> Fields() == old(Fields()) && Machine() == old(Machine())
      {
        var e: Event := *;
        if e.NewCr? || e.Annotate? || e.RequestDelete? || e.AddOther? || e.RemoveOther? || e.BucketAppears? || e.BucketVanishes? {
          var w := UserStep(World(cr, clock, bucket, Idle), e);
          UserStepIgnoresPc(World(cr, clock, bucket, Idle), Machine().pc, e);
          cr, clock, bucket := w.cr, w.clock, w.bucket;
          Record(e);
        }
        n := n - 1;
      }
    }

    /** An update of the CR: refused unless it carries the stored version. */
    method UpdateCr(new_: Cr) returns (ok: bool)
      requires Valid() && (Machine().pc.Adding? || Machine().pc.Removing?)
      requires new_ == Wanted(Machine().pc)
      modifies this
      ensures Valid() && Machine().pc.Idle? && old(history) <= history && Noise(old(history)) <= Noise(history)
      ensures Noise(history) == Noise(old(history)) && old(cr).Some? && old(cr).value.version == new_.version ==>
        ok && Fields() == Save(old(Fields()), new_)
    {
      hide Inv, Wanted, Noise;
      ghost var pc := Machine().pc;
      Interleave();
      var broken: bool, applied: bool := *, *;
      var current := cr.Some? && cr.value.version == new_.version;
      WantedVersion(pc);
      Record(Update(if broken then Broken(applied) else Answered));
      if current && (!broken || applied) {
        cr := if new_.deleting && new_.finalizers == [] then None else Some(new_.(version := clock + 1));
        clock := clock + 1;
      }
      ok := current && !broken;
    }

    method DeleteExternal() returns (deleted: bool)
      requires Valid() && Machine().pc.Deleting?
      modifies this
      ensures Valid() && old(history) <= history
      ensures if deleted then Machine().pc == Removing(old(Machine()).pc.copy) else Machine().pc.Idle?
      ensures Noise(old(history)) <= Noise(history)
      ensures Noise(history) == Noise(old(history)) ==>
        Fields() == old(Fields()).(bucket := NoBucket) && (deleted <==> old(bucket) != NoBucket)
    {
      hide Inv, Noise;
      Interleave();
      var broken: bool, applied: bool := *, *;
      var there := bucket != NoBucket;
      Record(DeleteBucket(if broken then Broken(applied) else Answered));
      if there && (!broken || applied) {
        bucket := NoBucket;
      }
      deleted := there && !broken;
    }

    /** The closing update of the status, whose outcome is ignored. */
    method UpdateStatus(copy: Cr)
      requires Valid() && Machine().pc == Syncing(copy)
      modifies this
      ensures Valid() && Machine().pc.Idle? && old(history) <= history && Noise(old(history)) <= Noise(history)
      ensures Noise(history) == Noise(old(history)) && old(cr).Some? && old(cr).value.version == copy.version ==>
        Fields() == Touch(old(Fields()))
    {
      hide Inv, Noise;
      Interleave();
      var broken: bool, applied: bool := *, *;
      var current := cr.Some? && cr.value.version == copy.version;
      Record(SyncStatus(if broken then Broken(applied) else Answered));
      if current && (!broken || applied) {
        cr := Some(cr.value.(version := clock + 1));
        clock := clock + 1;
      }
    }

    /** Existence check and creation; `there` says that the reconcile goes on to the status. */
    method EnsureBucket(copy: Cr) returns (there: bool)
      requires Valid() && Machine().pc == Checking(copy)
      modifies this
      ensures Valid() && old(history) <= history && Noise(old(history)) <= Noise(history)
      ensures Machine().pc == if there then Syncing(copy) else Idle
      ensures Noise(history) == Noise(old(history)) ==>
        there && Fields() == old(Fields()).(bucket := if old(bucket) == NoBucket then Ours else old(bucket))
    {
      hide Inv, Noise;
      Interleave();
      var reachable: bool := *;
      var missing := bucket == NoBucket;
      Record(Exists(reachable));
      if !reachable {
        return false;
      }
      if !missing {
        return true;
      }
      there := Create(copy);
    }

    method Create(copy: Cr) returns (created: bool)
      requires Valid() && Machine().pc == Creating(copy)
      modifies this
      ensures Valid() && old(history) <= history && Noise(old(history)) <= Noise(history)
      ensures Machine().pc == if created then Syncing(copy) else Idle
      ensures Noise(history) == Noise(old(history)) && old(bucket) == NoBucket ==>
        created && Fields() == old(Fields()).(bucket := Ours)
    {
      hide Inv, Noise;
      Interleave();
      var broken: bool, applied: bool := *, *;
      var free := bucket == NoBucket;
      Record(CreateBucket(if broken then Broken(applied) else Answered));
      if free && (!broken || applied) {
        bucket := Ours;
      }
      created := free && !broken;
    }

    /**
     `Reconcile`. If no unguarded creation was ever made, a bucket of the controller's own still has
     its CR and the finalizer when the reconcile returns. Undisturbed, it does exactly one `Pass`.
     */
    method Reconcile()
      requires Valid() && Machine().pc.Idle?
      modifies this
      ensures Valid() && Machine().pc.Idle? && old(history) <= history
      ensures NeverUnguarded(history) && bucket == Ours ==> cr.Some? && BucketProtection in cr.value.finalizers
      ensures cr.Some? ==> multiset(cr.value.finalizers)[BucketProtection] <= 1
      ensures Noise(history) == Noise(old(history)) ==> Fields() == Pass(old(Fields()))
      ensures Noise(history) == Noise(old(history)) && old(cr).Some? && old(cr).value.deleting
              && BucketProtection in old(cr).value.finalizers && old(bucket) != NoBucket ==>
        (bucket == NoBucket <==> SaysDelete(old(cr).value.annotation))
    {
      hide Inv, Noise, Pass;
      ghost var before := Fields();
      if before.cr.Some? && before.cr.value.deleting && Marked(before.cr.value) && before.bucket != NoBucket {
        DeletionUnderAnnotation(before);
      }
      Interleave();
      ReconcileOnce();
      ProtectedExactly(history);
      FinalizerAtMostOnce(history);
    }

    method ReconcileOnce()
      requires Valid() && Machine().pc.Idle?
      modifies this
      ensures Valid() && Machine().pc.Idle? && old(history) <= history && Noise(old(history)) <= Noise(history)
      ensures Noise(history) == Noise(old(history)) ==> Fields() == Pass(old(Fields()))
    {
      hide Inv, Noise, ParseBool;
      var ok: bool, clientOk: bool := *, *;
      Record(Get(ok, clientOk));
      if !ok || cr.None? {
        return;
      }
      var copy := cr.value;
      var contained := ContainFinalizer(copy.finalizers, BucketProtection);
      if !copy.deleting && !contained {
        var _ := UpdateCr(copy.(finalizers := copy.finalizers + [BucketProtection]));
        return;
      }
      if !clientOk {
        return;
      }
      if copy.annotation.Some? {
        var shouldDelete := ParseBool(copy.annotation.value);
        if shouldDelete.None? {
          return;
        }
        if shouldDelete.value && copy.deleting {
          var deleted := DeleteExternal();
          if !deleted {
            return;
          }
          var slice := new Finalizer[|copy.finalizers|](i requires 0 <= i < |copy.finalizers| => copy.finalizers[i]);
          assert slice[..] == copy.finalizers;
          var n := RemoveKey(slice, BucketProtection);
          var _ := UpdateCr(copy.(finalizers := slice[..n]));
          return;
        }
      }
      var there := EnsureBucket(copy);
      if there {
        UpdateStatus(copy);
      }
    }
  }

  lemma UserStepIgnoresPc(w: World, pc: Pc, e: Event)
    ensures UserStep(w.(pc := pc), e) == UserStep(w, e).(pc := pc)
  {
  }

  lemma WantedVersion(pc: Pc)
    requires pc.Adding? || pc.Removing?
    ensures Wanted(pc).version == pc.copy.version
  {
  }
}
