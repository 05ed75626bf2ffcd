/**
 The lifecycle of a CloudStorage bucket. The controller adds a finalizer before it creates the
 bucket, and removes it after it has deleted the bucket, which it does only for a CR that is
 being deleted with a true delete annotation. Users, third parties, failing calls and crashes
 may come between any two calls; reconciles are serial and updates compare versions.
 */
module CloudStorage {

  import opened Wrappers

  datatype Finalizer = BucketProtection | Other(name: string)

  datatype Cr = Cr(deleting: bool, finalizers: seq<Finalizer>, annotation: Option<string>, version: nat)

  /** No bucket, one that the controller did not create, or one that it did. */
  datatype Bucket = NoBucket | Foreign | Ours

  /** Where a reconcile stands, with the copy of the CR it read. */
  datatype Pc =
    | Idle
    | Adding(copy: Cr)
    | Deleting(copy: Cr)
    | Removing(copy: Cr)
    | Checking(copy: Cr)
    | Creating(copy: Cr)
    | Syncing(copy: Cr)

  datatype World = World(cr: Option<Cr>, clock: nat, bucket: Bucket, pc: Pc)

  const START := World(None, 0, NoBucket, Idle)

  datatype Answer = Answered | Broken(applied: bool)

  datatype Event =
    // users and third parties
    | NewCr(annotation: Option<string>)
    | Annotate(annotation: Option<string>)
    | RequestDelete
    | AddOther(name: string)
    | RemoveOther(name: string)
    | BucketAppears
    | BucketVanishes
    // calls of the controller
    | Get(ok: bool, clientOk: bool)
    | Update(answer: Answer)
    | DeleteBucket(answer: Answer)
    | Exists(ok: bool)
    | CreateBucket(answer: Answer)
    | SyncStatus(answer: Answer)
    | Crash

  // ---------------------------------------------------------------- small operations of the source

  /** `strconv.ParseBool`. */
  function ParseBool(s: string): Option<bool> {
    if s in {"1", "t", "T", "true", "TRUE", "True"} then Some(true)
    else if s in {"0", "f", "F", "false", "FALSE", "False"} then Some(false)
    else None
  }

  /** `containFinalizer`. */
  method ContainFinalizer(fs: seq<Finalizer>, f: Finalizer) returns (found: bool)
    ensures found <==> f in fs
  {
    for i := 0 to |fs|
      invariant f !in fs[..i]
    {
      if fs[i] == f {
        return true;
      }
    }
    return false;
  }

  /** The list without the first occurrence of `f`. */
  function Without(fs: seq<Finalizer>, f: Finalizer): seq<Finalizer> {
    if fs == [] then [] else if fs[0] == f then fs[1..] else [fs[0]] + Without(fs[1..], f)
  }

  lemma {:induction false} WithoutCounts(fs: seq<Finalizer>, f: Finalizer)
    ensures multiset(Without(fs, f)) == multiset(fs) - multiset{f}
    ensures f !in fs ==> Without(fs, f) == fs
  {
    if fs != [] {
      var rest := fs[1..];
      assert fs == [fs[0]] + rest;
      assert multiset(fs) == multiset{fs[0]} + multiset(rest);
      if fs[0] != f {
        WithoutCounts(rest, f);
        hide Without;
        assert multiset([fs[0]] + Without(rest, f)) == multiset{fs[0]} + multiset(Without(rest, f));
      }
    }
  }

  lemma {:induction false} WithoutAt(fs: seq<Finalizer>, i: nat)
    requires i < |fs| && fs[i] !in fs[..i]
    ensures Without(fs, fs[i]) == fs[..i] + fs[i + 1..]
  {
    if i > 0 {
      assert fs[..i][0] == fs[0];
      assert fs[1..][..i - 1] == fs[..i][1..];
      WithoutAt(fs[1..], i - 1);
      assert fs[1..][i..] == fs[i + 1..];
      assert fs[..i] == [fs[0]] + fs[1..][..i - 1];
    }
  }

  /** Moves the elements after `i` one place down. */
  method ShiftDown(a: array<Finalizer>, i: nat)
    requires i < a.Length
    modifies a
    ensures a[..a.Length - 1] == old(a[..i]) + old(a[i + 1..])
  {
    var j := i;
    while j + 1 < a.Length
      invariant i <= j < a.Length
      invariant forall k :: 0 <= k < i ==> a[k] == old(a[k])
      invariant forall k :: i <= k < j ==> a[k] == old(a[k + 1])
      invariant forall k :: j < k < a.Length ==> a[k] == old(a[k])
    {
      a[j] := a[j + 1];
      j := j + 1;
    }
  }

  /** `removeKey`: the tail is shifted down in the slice's own array. */
  method RemoveKey(a: array<Finalizer>, f: Finalizer) returns (n: nat)
    modifies a
    ensures n <= a.Length && a[..n] == Without(old(a[..]), f)
  {
    hide Without;
    ghost var was := a[..];
    var i := 0;
    while i < a.Length
      invariant 0 <= i <= a.Length && f !in was[..i] && a[..] == was
    {
      if a[i] == f {
        WithoutAt(was, i);
        assert a[..i] == was[..i] && a[i + 1..] == was[i + 1..];
        ShiftDown(a, i);
        return a.Length - 1;
      }
      assert was[..i + 1] == was[..i] + [was[i]];
      i := i + 1;
    }
    assert was[..a.Length] == was;
    WithoutCounts(was, f);
    return a.Length;
  }

  // ---------------------------------------------------------------- the API server

  /** Store a new CR state; a deleted CR without finalizers disappears. */
  function Save(w: World, cr: Cr): World {
    w.(cr := if cr.deleting && cr.finalizers == [] then None else Some(cr.(version := w.clock + 1)), clock := w.clock + 1)
  }

  /** A write to the status part: only the version changes here. */
  function Touch(w: World): World
    requires w.cr.Some?
  {
    w.(cr := Some(w.cr.value.(version := w.clock + 1)), clock := w.clock + 1)
  }

  predicate Current(w: World, copy: Cr) {
    w.cr.Some? && w.cr.value.version == copy.version
  }

  // ---------------------------------------------------------------- steps

  function Wanted(pc: Pc): Cr
    requires pc.Adding? || pc.Removing?
  {
    if pc.Adding? then pc.copy.(finalizers := pc.copy.finalizers + [BucketProtection])
    else pc.copy.(finalizers := Without(pc.copy.finalizers, BucketProtection))
  }

  /** What a reconcile does after it has read the CR. */
  function Decide(copy: Cr, clientOk: bool): Pc {
    if !copy.deleting && BucketProtection !in copy.finalizers then Adding(copy)
    else if !clientOk then Idle
    else match copy.annotation
      case None => Checking(copy)
      case Some(a) =>
        match ParseBool(a)
        case None => Idle
        case Some(true) => if copy.deleting then Deleting(copy) else Checking(copy)
        case Some(false) => Checking(copy)
  }

  function UserStep(w: World, e: Event): World {
    match e
    case NewCr(a) => if w.cr.Some? then w else Save(w, Cr(false, [], a, 0))
    case Annotate(a) => if w.cr.None? then w else Save(w, w.cr.value.(annotation := a))
    case RequestDelete => if w.cr.None? then w else Save(w, w.cr.value.(deleting := true))
    case AddOther(n) =>
      if w.cr.None? || w.cr.value.deleting then w
      else Save(w, w.cr.value.(finalizers := w.cr.value.finalizers + [Other(n)]))
    case RemoveOther(n) =>
      if w.cr.None? then w else Save(w, w.cr.value.(finalizers := Without(w.cr.value.finalizers, Other(n))))
    case BucketAppears => if w.bucket == NoBucket then w.(bucket := Foreign) else w
    case BucketVanishes => w.(bucket := NoBucket)
    case _ => w
  }

  /** One step; an event that is not enabled changes nothing. */
  function Step(w: World, e: Event): World {
    match e
    case Crash => w.(pc := Idle)
    case Get(ok, clientOk) =>
      if !w.pc.Idle? || !ok || w.cr.None? then w else w.(pc := Decide(w.cr.value, clientOk))
    case Update(answer) =>
      if !(w.pc.Adding? || w.pc.Removing?) then w
      else if Current(w, w.pc.copy) && answer != Broken(false) then Save(w, Wanted(w.pc)).(pc := Idle)
      else w.(pc := Idle)
    case DeleteBucket(answer) =>
      if !w.pc.Deleting? then w
      else if w.bucket == NoBucket || answer == Broken(false) then w.(pc := Idle)
      else w.(bucket := NoBucket, pc := if answer.Answered? then Removing(w.pc.copy) else Idle)
    case Exists(ok) =>
      if !w.pc.Checking? then w
      else w.(pc := if !ok then Idle else if w.bucket == NoBucket then Creating(w.pc.copy) else Syncing(w.pc.copy))
    case CreateBucket(answer) =>
      if !w.pc.Creating? then w
      else if w.bucket != NoBucket || answer == Broken(false) then w.(pc := Idle)
      else w.(bucket := Ours, pc := if answer.Answered? then Syncing(w.pc.copy) else Idle)
    case SyncStatus(answer) =>
      if !w.pc.Syncing? then w
      else if Current(w, w.pc.copy) && answer != Broken(false) then Touch(w).(pc := Idle)
      else w.(pc := Idle)
    case _ => UserStep(w, e)
  }

  function Run(w: World, es: seq<Event>): World {
    if es == [] then w else Step(Run(w, es[..|es| - 1]), es[|es| - 1])
  }

  // ---------------------------------------------------------------- undisturbed reconciles

  /** A reconcile in which every call succeeds and nobody else acts. */
  function Pass(w: World): World {
    if w.cr.None? then w else
    match Decide(w.cr.value, true)
    case Adding(copy) => Save(w, copy.(finalizers := copy.finalizers + [BucketProtection]))
    case Deleting(copy) =>
      if w.bucket == NoBucket then w
      else Save(w.(bucket := NoBucket), copy.(finalizers := Without(copy.finalizers, BucketProtection)))
    case Checking(_) => Touch(w.(bucket := if w.bucket == NoBucket then Ours else w.bucket))
    case _ => w
  }

  function Unversioned(cr: Option<Cr>): Option<Cr> {
    match cr
    case None => None
    case Some(c) => Some(c.(version := 0))
  }

  /** The same up to versions, which every status write moves on. */
  predicate Same(v: World, w: World) {
    Unversioned(v.cr) == Unversioned(w.cr) && v.bucket == w.bucket && v.pc == w.pc
  }

  /**
   Nothing the controller would do: there is no CR; or the delete annotation cannot be parsed; or
   deletion was asked for and there is no bucket; or it was not asked for and there is one. A CR
   that is not being deleted carries the finalizer as well. Buckets that leaked and deletions that
   are stuck are at rest, too.
   */
  predicate AtRest(w: World) {
    w.cr.Some? ==>
      && (w.cr.value.deleting || Marked(w.cr.value))
      && (|| (!SaysDelete(w.cr.value.annotation) && !SaysKeep(w.cr.value.annotation))
          || (w.bucket == NoBucket <==> w.cr.value.deleting && SaysDelete(w.cr.value.annotation)))
  }

  /** The annotation asks for the deletion of the bucket. */
  predicate SaysDelete(annotation: Option<string>) {
    annotation.Some? && annotation.value in {"1", "t", "T", "true", "TRUE", "True"}
  }

  /** There is no annotation, or it asks not to delete the bucket. */
  predicate SaysKeep(annotation: Option<string>) {
    annotation.None? || annotation.value in {"0", "f", "F", "false", "FALSE", "False"}
  }

  lemma AnnotationSays(annotation: Option<string>)
    ensures annotation.Some? ==> (ParseBool(annotation.value) == Some(true) <==> SaysDelete(annotation))
    ensures annotation.Some? ==> (ParseBool(annotation.value) == Some(false) <==> SaysKeep(annotation))
    ensures !(SaysDelete(annotation) && SaysKeep(annotation))
  {
    if annotation.Some? {
      TrueIsNotFalse(annotation.value);
    }
  }

  lemma TrueIsNotFalse(s: string)
    ensures !(s in {"1", "t", "T", "true", "TRUE", "True"} && s in {"0", "f", "F", "false", "FALSE", "False"})
  {
    if s in {"1", "t", "T", "true", "TRUE", "True"} {
      assert s[0] in {'1', 't', 'T'};
    }
  }

  /**
   An undisturbed reconcile of a CR that is being deleted with its finalizer and a bucket: the bucket
   goes, and with it the finalizer, exactly under one of the six true spellings. Under a false one or
   none, bucket and finalizers stay; under any other text nothing happens at all.
   */
  lemma DeletionUnderAnnotation(w: World)
    requires w.cr.Some? && w.cr.value.deleting && Marked(w.cr.value) && w.bucket != NoBucket
    ensures Pass(w).bucket == NoBucket <==> SaysDelete(w.cr.value.annotation)
    ensures SaysDelete(w.cr.value.annotation) && Pass(w).cr.Some? ==>
      multiset(Pass(w).cr.value.finalizers) == multiset(w.cr.value.finalizers) - multiset{BucketProtection}
    ensures SaysKeep(w.cr.value.annotation) ==> Pass(w).bucket == w.bucket && Unversioned(Pass(w).cr) == Unversioned(w.cr)
    ensures !SaysDelete(w.cr.value.annotation) && !SaysKeep(w.cr.value.annotation) ==> Pass(w) == w
  {
    AnnotationSays(w.cr.value.annotation);
    WithoutCounts(w.cr.value.finalizers, BucketProtection);
    hide ParseBool, SaysDelete, SaysKeep, Without;
  }

  /** A CR that is not being deleted gets its finalizer first and then its bucket, unless the annotation is garbled. */
  lemma CreationUnderAnnotation(w: World)
    requires w.cr.Some? && !w.cr.value.deleting
    ensures !Marked(w.cr.value) ==>
      && Pass(w).bucket == w.bucket && Pass(w).cr.Some?
      && Pass(w).cr.value.finalizers == w.cr.value.finalizers + [BucketProtection]
    ensures Marked(w.cr.value) ==>
      && Unversioned(Pass(w).cr) == Unversioned(w.cr)
      && Pass(w).bucket == if w.bucket == NoBucket && (SaysDelete(w.cr.value.annotation) || SaysKeep(w.cr.value.annotation))
                           then Ours else w.bucket
  {
    AnnotationSays(w.cr.value.annotation);
    hide ParseBool, SaysDelete, SaysKeep;
  }

  lemma AtRestExactly(w: World)
    ensures Same(Pass(w), w) <==> AtRest(w)
  {
    if w.cr.Some? {
      AnnotationSays(w.cr.value.annotation);
      hide ParseBool, SaysDelete, SaysKeep;
    }
  }

  /** Two undisturbed reconciles always come to rest. */
  lemma TwoPassesSettle(w: World)
    ensures AtRest(Pass(Pass(w)))
    ensures w.cr.Some? && w.cr.value.deleting && SaysDelete(w.cr.value.annotation) && w.bucket != NoBucket
      ==> Pass(w).bucket == NoBucket && (Pass(w).cr.None? <==> Without(w.cr.value.finalizers, BucketProtection) == [])
    ensures w.cr.Some? && !w.cr.value.deleting && (SaysDelete(w.cr.value.annotation) || SaysKeep(w.cr.value.annotation))
      ==> HasMark(Pass(Pass(w))) && Pass(Pass(w)).bucket != NoBucket
  {
    if w.cr.Some? {
      AnnotationSays(w.cr.value.annotation);
      hide ParseBool, Without, SaysDelete, SaysKeep;
    }
  }

  // ---------------------------------------------------------------- invariant

  predicate Marked(cr: Cr) {
    BucketProtection in cr.finalizers
  }

  predicate OneMark(fs: seq<Finalizer>) {
    multiset(fs)[BucketProtection] <= 1
  }

  /** The copy is as old as its version says: the same version means the same CR. */
  predicate CopyValid(w: World, copy: Cr) {
    copy.version <= w.clock && (Current(w, copy) ==> copy == w.cr.value) && OneMark(copy.finalizers)
  }

  predicate HasMark(w: World) {
    w.cr.Some? && Marked(w.cr.value)
  }

  /** Only the running reconcile adds or removes the finalizer, so what it read still holds. */
  predicate MarkKnown(w: World, copy: Cr) {
    Marked(copy) <==> HasMark(w)
  }

  predicate AskedToDelete(copy: Cr) {
    copy.deleting && copy.annotation.Some? && ParseBool(copy.annotation.value) == Some(true)
  }

  predicate PcOk(w: World) {
    !w.pc.Idle? ==>
      && CopyValid(w, w.pc.copy) && MarkKnown(w, w.pc.copy)
      && match w.pc
         case Adding(copy) => !copy.deleting && !Marked(copy)
         case Removing(copy) => AskedToDelete(copy) && w.bucket != Ours
         case Deleting(copy) => AskedToDelete(copy)
         case Checking(copy) => Marked(copy) || copy.deleting
         case Creating(copy) => Marked(copy) || copy.deleting
         case Syncing(_) => true
  }

  predicate CrOk(w: World) {
    w.cr.Some? ==>
      && w.cr.value.version <= w.clock
      && OneMark(w.cr.value.finalizers)
      && (w.cr.value.deleting ==> w.cr.value.finalizers != [])
  }

  predicate Inv(w: World) {
    PcOk(w) && CrOk(w)
  }

  lemma MarkCount(fs: seq<Finalizer>)
    ensures BucketProtection in fs <==> multiset(fs)[BucketProtection] > 0
  {
    assert BucketProtection in fs <==> BucketProtection in multiset(fs);
  }

  /** Saving a CR with the same mark keeps every copy usable. */
  lemma SaveKeepsInv(w: World, cr: Cr)
    requires Inv(w) && OneMark(cr.finalizers)
    requires Marked(cr) <==> HasMark(w)
    ensures Inv(Save(w, cr))
  {
    MarkCount(cr.finalizers);
    hide OneMark, ParseBool;
  }

  lemma UserStepKeepsInv(w: World, e: Event)
    requires Inv(w)
    ensures Inv(UserStep(w, e))
  {
    match e
    case AddOther(n) =>
      if w.cr.Some? {
        var fs := w.cr.value.finalizers;
        assert multiset(fs + [Other(n)]) == multiset(fs) + multiset{Other(n)};
        MarkCount(fs);
        MarkCount(fs + [Other(n)]);
        SaveKeepsInv(w, w.cr.value.(finalizers := fs + [Other(n)]));
      }
    case RemoveOther(n) =>
      if w.cr.Some? {
        var fs := w.cr.value.finalizers;
        WithoutCounts(fs, Other(n));
        MarkCount(fs);
        MarkCount(Without(fs, Other(n)));
        SaveKeepsInv(w, w.cr.value.(finalizers := Without(fs, Other(n))));
      }
    case NewCr(a) =>
      if w.cr.None? {
        SaveKeepsInv(w, Cr(false, [], a, 0));
      }
    case Annotate(a) =>
      if w.cr.Some? {
        SaveKeepsInv(w, w.cr.value.(annotation := a));
      }
    case RequestDelete =>
      if w.cr.Some? {
        SaveKeepsInv(w, w.cr.value.(deleting := true));
      }
    case _ =>
  }

  lemma UpdateKeepsInv(w: World, answer: Answer)
    requires Inv(w)
    ensures Inv(Step(w, Update(answer)))
  {
    if w.pc.Adding? || w.pc.Removing? {
      WantedHasOneMark(w.pc);
      hide Wanted, OneMark, ParseBool;
    }
  }

  lemma WantedHasOneMark(pc: Pc)
    requires pc.Adding? || pc.Removing?
    requires OneMark(pc.copy.finalizers) && (pc.Adding? ==> !Marked(pc.copy))
    ensures OneMark(Wanted(pc).finalizers)
    ensures pc.Removing? ==> !Marked(Wanted(pc))
    ensures pc.Adding? ==> Marked(Wanted(pc))
  {
    var fs := pc.copy.finalizers;
    MarkCount(fs);
    assert multiset(fs + [BucketProtection]) == multiset(fs) + multiset{BucketProtection};
    WithoutCounts(fs, BucketProtection);
    MarkCount(Wanted(pc).finalizers);
  }

  lemma StepKeepsInv(w: World, e: Event)
    requires Inv(w)
    ensures Inv(Step(w, e))
  {
    hide ParseBool, OneMark;
    match e
    case Update(answer) => UpdateKeepsInv(w, answer);
    case Get(_, _) =>
    case DeleteBucket(_) =>
    case Exists(_) =>
    case CreateBucket(_) =>
    case SyncStatus(_) =>
    case Crash =>
    case _ => UserStepKeepsInv(w, e);
  }

  lemma {:induction false} RunKeepsInv(es: seq<Event>)
    ensures Inv(Run(START, es))
  {
    if es != [] {
      RunKeepsInv(es[..|es| - 1]);
      StepKeepsInv(Run(START, es[..|es| - 1]), es[|es| - 1]);
    }
  }

  // ---------------------------------------------------------------- main results

  /** A bucket the controller created belongs to a CR that still exists and carries the finalizer. */
  predicate Protected(w: World) {
    w.bucket == Ours ==> HasMark(w)
  }

  /** Creating the bucket for a CR that was read without the finalizer: it was already being deleted. */
  predicate UnguardedCreate(w: World, e: Event) {
    e.CreateBucket? && w.pc.Creating? && !Marked(w.pc.copy) && w.bucket == NoBucket && e.answer != Broken(false)
  }

  /** The only step that can leave an unprotected bucket behind is an unguarded creation. */
  lemma StepProtectsExactly(w: World, e: Event)
    requires Inv(w) && Protected(w)
    ensures Protected(Step(w, e)) <==> !UnguardedCreate(w, e)
  {
    if HasMark(w) {
      MarkLeavesOnlyAfterDelete(w, e);
    }
    hide ParseBool, OneMark, Without;
  }

  lemma UserStepKeepsMark(w: World, e: Event)
    requires HasMark(w)
    ensures HasMark(UserStep(w, e))
  {
    hide Without;
    var fs := w.cr.value.finalizers;
    if e.RemoveOther? {
      MarkWithoutOther(fs, e.name);
    }
  }

  lemma MarkWithoutOther(fs: seq<Finalizer>, n: string)
    ensures BucketProtection in Without(fs, Other(n)) <==> BucketProtection in fs
  {
    hide Without;
    MarkCount(fs);
    WithoutCounts(fs, Other(n));
    MarkCount(Without(fs, Other(n)));
  }

  /**
   A step after which the CR no longer carries the finalizer it had is the update that follows a
   successful bucket delete, on a CR that is being deleted under a true delete annotation.
   */
  lemma MarkLeavesOnlyAfterDelete(w: World, e: Event)
    requires Inv(w) && HasMark(w)
    ensures !HasMark(Step(w, e)) ==> e.Update? && w.pc.Removing? && w.bucket != Ours && AskedToDelete(w.cr.value)
  {
    UserStepKeepsMark(w, e);
    hide UserStep, ParseBool, OneMark, Without;
  }

  /** At `k` of the run, the reconcile that now removes the finalizer has deleted a bucket that was there. */
  predicate DeletedAt(es: seq<Event>, k: nat) {
    && k < |es| && es[k] == DeleteBucket(Answered)
    && Run(START, es[..k]).pc.Deleting? && Run(START, es[..k]).bucket != NoBucket
    && forall j :: k < j <= |es| ==> Run(START, es[..j]).pc == Removing(Run(START, es[..k]).pc.copy)
  }

  lemma {:induction false} RemovingMeansDeleted(es: seq<Event>) returns (k: nat)
    requires Run(START, es).pc.Removing?
    ensures DeletedAt(es, k)
  {
    var n := |es| - 1;
    var init := es[..n];
    assert es[..|es|] == es;
    if Run(START, init).pc.Removing? {
      k := RemovingMeansDeleted(init);
      KeepsRemoving(Run(START, init), es[n]);
      hide Run, Step;
      assert forall j :: 0 <= j <= n ==> es[..j] == init[..j];
      assert init[..n] == init;
    } else {
      k := n;
      StartsRemoving(Run(START, init), es[n]);
      hide Run, Step;
    }
  }

  lemma KeepsRemoving(w: World, e: Event)
    requires w.pc.Removing? && Step(w, e).pc.Removing?
    ensures Step(w, e).pc == w.pc
  {
    hide ParseBool, Without;
  }

  lemma StartsRemoving(w: World, e: Event)
    requires !w.pc.Removing? && Step(w, e).pc.Removing?
    ensures e == DeleteBucket(Answered) && w.pc.Deleting? && w.bucket != NoBucket && Step(w, e).pc == Removing(w.pc.copy)
  {
    hide ParseBool, Without;
  }

  /**
   On every run: when the finalizer goes, the reconcile that removes it has called for the deletion
   of an existing bucket and got a success, and has done nothing else since.
   */
  lemma FinalizerOutlivesBucket(es: seq<Event>, e: Event) returns (k: nat)
    requires HasMark(Run(START, es)) && !HasMark(Step(Run(START, es), e))
    ensures e.Update? && DeletedAt(es, k)
    ensures var copy := Run(START, es[..k]).pc.copy; copy.deleting && SaysDelete(copy.annotation)
  {
    RunKeepsInv(es);
    MarkLeavesOnlyAfterDelete(Run(START, es), e);
    k := RemovingMeansDeleted(es);
    RunKeepsInv(es[..k]);
    AnnotationSays(Run(START, es[..k]).pc.copy.annotation);
    hide Run, Step, HasMark, ParseBool, SaysDelete, SaysKeep;
  }

  /**
   On every run: a call of the controller deletes a bucket only for a CR that it read as being deleted
   under one of the true spellings.
   */
  lemma BucketGoesOnlyAsAsked(es: seq<Event>, e: Event)
    requires ControllerCall(e) && Run(START, es).bucket != NoBucket && Step(Run(START, es), e).bucket == NoBucket
    ensures var w := Run(START, es); w.pc.Deleting? && w.pc.copy.deleting && SaysDelete(w.pc.copy.annotation)
  {
    var w := Run(START, es);
    RunKeepsInv(es);
    assert w.pc.Deleting?;
    AnnotationSays(w.pc.copy.annotation);
    hide Run, Step, ParseBool, SaysDelete, SaysKeep;
  }

  /** In every reachable state the finalizer occurs at most once. */
  lemma FinalizerAtMostOnce(es: seq<Event>)
    ensures var w := Run(START, es); w.cr.Some? ==> multiset(w.cr.value.finalizers)[BucketProtection] <= 1
  {
    RunKeepsInv(es);
  }

  /** Every state of the run, from the first to the last. */
  predicate AlwaysProtected(es: seq<Event>) {
    Protected(Run(START, es)) && (es != [] ==> AlwaysProtected(es[..|es| - 1]))
  }

  /** No step of the run is an unguarded creation. */
  predicate NeverUnguarded(es: seq<Event>) {
    es == [] || (NeverUnguarded(es[..|es| - 1]) && !UnguardedCreate(Run(START, es[..|es| - 1]), es[|es| - 1]))
  }

  /** A run keeps every bucket protected throughout exactly when it makes no unguarded creation. */
  lemma {:induction false} ProtectedExactly(es: seq<Event>)
    ensures AlwaysProtected(es) <==> NeverUnguarded(es)
  {
    if es == [] {
      assert Protected(START);
    } else {
      hide Step, Inv, Protected, UnguardedCreate;
      var init := es[..|es| - 1];
      ProtectedExactly(init);
      if AlwaysProtected(init) {
        RunKeepsInv(init);
        StepProtectsExactly(Run(START, init), es[|es| - 1]);
      }
    }
  }

  predicate NoOtherFinalizers(es: seq<Event>) {
    forall k :: 0 <= k < |es| ==> !es[k].AddOther?
  }

  predicate OnlyMark(fs: seq<Finalizer>) {
    forall i :: 0 <= i < |fs| ==> fs[i] == BucketProtection
  }

  /** Without foreign finalizers a CR that is being deleted always carries the bucket finalizer. */
  predicate OnlyOurs(w: World) {
    && (w.cr.Some? ==> OnlyMark(w.cr.value.finalizers))
    && (!w.pc.Idle? ==> OnlyMark(w.pc.copy.finalizers) && (w.pc.copy.deleting ==> w.pc.copy.finalizers != []))
  }

  lemma {:induction false} OnlyMarkWithout(fs: seq<Finalizer>, f: Finalizer)
    requires OnlyMark(fs)
    ensures OnlyMark(Without(fs, f))
  {
    if fs != [] {
      OnlyMarkWithout(fs[1..], f);
    }
  }

  lemma StepKeepsOnlyOurs(w: World, e: Event)
    requires Inv(w) && OnlyOurs(w) && !e.AddOther?
    ensures OnlyOurs(Step(w, e))
  {
    if w.pc.Removing? {
      OnlyMarkWithout(w.pc.copy.finalizers, BucketProtection);
    }
    if e.RemoveOther? && w.cr.Some? {
      OnlyMarkWithout(w.cr.value.finalizers, Other(e.name));
    }
  }

  lemma {:induction false} RunKeepsOnlyOurs(es: seq<Event>)
    requires NoOtherFinalizers(es)
    ensures OnlyOurs(Run(START, es))
  {
    if es != [] {
      RunKeepsOnlyOurs(es[..|es| - 1]);
      RunKeepsInv(es[..|es| - 1]);
      StepKeepsOnlyOurs(Run(START, es[..|es| - 1]), es[|es| - 1]);
    }
  }

  lemma {:induction false} NeverUnguardedWithoutForeign(es: seq<Event>)
    requires NoOtherFinalizers(es)
    ensures NeverUnguarded(es)
  {
    if es != [] {
      var init := es[..|es| - 1];
      NeverUnguardedWithoutForeign(init);
      RunKeepsOnlyOurs(init);
      RunKeepsInv(init);
      var w := Run(START, init);
      if w.pc.Creating? && w.pc.copy.finalizers != [] {
        assert w.pc.copy.finalizers[0] == BucketProtection;
      }
    }
  }

  /** With no foreign finalizer in play, every bucket the controller creates stays protected. */
  lemma ProtectedWithoutForeign(es: seq<Event>)
    requires NoOtherFinalizers(es)
    ensures AlwaysProtected(es)
  {
    NeverUnguardedWithoutForeign(es);
    ProtectedExactly(es);
  }

  // ---------------------------------------------------------------- two consequences worth knowing

  lemma LeakFirstSteps(n: string, left: Cr)
    requires left == Cr(true, [Other(n)], None, 3)
    ensures Step(START, NewCr(None)) == World(Some(Cr(false, [], None, 1)), 1, NoBucket, Idle)
    ensures Step(World(Some(Cr(false, [], None, 1)), 1, NoBucket, Idle), AddOther(n))
         == World(Some(Cr(false, [Other(n)], None, 2)), 2, NoBucket, Idle)
    ensures Step(World(Some(Cr(false, [Other(n)], None, 2)), 2, NoBucket, Idle), RequestDelete) == World(Some(left), 3, NoBucket, Idle)
  {
    assert [] + [Other(n)] == [Other(n)];
  }

  lemma LeakLastSteps(n: string, left: Cr)
    requires left == Cr(true, [Other(n)], None, 3)
    ensures Step(World(Some(left), 3, NoBucket, Idle), Get(true, true)) == World(Some(left), 3, NoBucket, Checking(left))
    ensures Step(World(Some(left), 3, NoBucket, Checking(left)), Exists(true)) == World(Some(left), 3, NoBucket, Creating(left))
    ensures Step(World(Some(left), 3, NoBucket, Creating(left)), CreateBucket(Answered)) == World(Some(left), 3, Ours, Syncing(left))
    ensures Step(World(Some(left), 3, Ours, Syncing(left)), SyncStatus(Answered)) == World(Some(left.(version := 4)), 4, Ours, Idle)
    ensures Step(World(Some(left.(version := 4)), 4, Ours, Idle), RemoveOther(n)) == World(None, 5, Ours, Idle)
  {
    assert Without([Other(n)], Other(n)) == [];
  }

  lemma RunSnoc(w: World, es: seq<Event>, e: Event)
    ensures Run(w, es + [e]) == Step(Run(w, es), e)
  {
    assert (es + [e])[..|es|] == es;
  }

  /** A foreign finalizer keeps a deleted CR around without ours: a bucket created then outlives the CR. */
  lemma ForeignFinalizerLeaksBucket(n: string) returns (es: seq<Event>)
    ensures Run(START, es).bucket == Ours && Run(START, es).cr.None?
  {
    LeakFirstSteps(n, Cr(true, [Other(n)], None, 3));
    LeakLastSteps(n, Cr(true, [Other(n)], None, 3));
    hide Step;
    es := [];
    assert Run(START, es) == START;
    RunSnoc(START, es, NewCr(None));
    es := es + [NewCr(None)];
    RunSnoc(START, es, AddOther(n));
    es := es + [AddOther(n)];
    RunSnoc(START, es, RequestDelete);
    es := es + [RequestDelete];
    RunSnoc(START, es, Get(true, true));
    es := es + [Get(true, true)];
    RunSnoc(START, es, Exists(true));
    es := es + [Exists(true)];
    RunSnoc(START, es, CreateBucket(Answered));
    es := es + [CreateBucket(Answered)];
    RunSnoc(START, es, SyncStatus(Answered));
    es := es + [SyncStatus(Answered)];
    RunSnoc(START, es, RemoveOther(n));
    es := es + [RemoveOther(n)];
  }

  predicate ControllerCall(e: Event) {
    e.Get? || e.Update? || e.DeleteBucket? || e.Exists? || e.CreateBucket? || e.SyncStatus? || e.Crash?
  }

  /**
   Once the bucket is gone but its finalizer was not removed (the update failed), the controller
   cannot finish the deletion: deleting a missing bucket is an error, so no sequence of its calls
   changes the CR.
   */
  lemma {:induction false} MissingBucketWedgesDeletion(w: World, es: seq<Event>)
    requires w.pc.Idle? && w.bucket == NoBucket && w.cr.Some? && w.cr.value.deleting && w.cr.value.annotation.Some?
    requires ParseBool(w.cr.value.annotation.value) == Some(true)
    requires forall k :: 0 <= k < |es| ==> ControllerCall(es[k])
    ensures var w' := Run(w, es); w'.cr == w.cr && w'.bucket == NoBucket && (w'.pc.Idle? || w'.pc == Deleting(w.cr.value))
  {
    if es != [] {
      MissingBucketWedgesDeletion(w, es[..|es| - 1]);
    }
  }

  predicate OnlyCalls(es: seq<Event>) {
    forall k :: 0 <= k < |es| ==> ControllerCall(es[k])
  }

  /** Some sequence of the controller's calls, with whatever answers, removes the finalizer. */
  ghost predicate CanFinish(w: World) {
    exists es :: OnlyCalls(es) && !HasMark(Run(w, es))
  }

  /** The controller can finish a deletion it was asked for exactly if the bucket is still there. */
  lemma FinishesExactly(w: World)
    requires Inv(w) && w.pc.Idle? && HasMark(w) && AskedToDelete(w.cr.value)
    ensures CanFinish(w) <==> w.bucket != NoBucket
  {
    if w.bucket == NoBucket {
      forall es | OnlyCalls(es) ensures HasMark(Run(w, es)) {
        MissingBucketWedgesDeletion(w, es);
      }
    } else {
      var cr := w.cr.value;
      var es := [Get(true, true)] + [DeleteBucket(Answered)] + [Update(Answered)];
      RunSnoc(w, [], Get(true, true));
      assert [] + [Get(true, true)] == [Get(true, true)];
      RunSnoc(w, [Get(true, true)], DeleteBucket(Answered));
      RunSnoc(w, [Get(true, true)] + [DeleteBucket(Answered)], Update(Answered));
      FinishSteps(w);
      hide Step, Inv, HasMark;
      assert Run(w, []) == w;
      assert OnlyCalls(es);
    }
  }

  lemma FinishSteps(w: World)
    requires Inv(w) && w.pc.Idle? && HasMark(w) && AskedToDelete(w.cr.value) && w.bucket != NoBucket
    ensures !HasMark(Step(Step(Step(w, Get(true, true)), DeleteBucket(Answered)), Update(Answered)))
  {
    var cr := w.cr.value;
    WantedHasOneMark(Removing(cr));
    hide ParseBool, OneMark, Without;
    assert Step(w, Get(true, true)) == w.(pc := Deleting(cr));
    assert Step(w.(pc := Deleting(cr)), DeleteBucket(Answered)) == w.(bucket := NoBucket, pc := Removing(cr));
  }

  const YES := Some("true")

  lemma WedgeFirstSteps()
    ensures Step(START, NewCr(YES)) == World(Some(Cr(false, [], YES, 1)), 1, NoBucket, Idle)
    ensures var new_ := Cr(false, [], YES, 1);
      && Step(World(Some(new_), 1, NoBucket, Idle), Get(true, true)) == World(Some(new_), 1, NoBucket, Adding(new_))
      && Step(World(Some(new_), 1, NoBucket, Adding(new_)), Update(Answered))
         == World(Some(Cr(false, [BucketProtection], YES, 2)), 2, NoBucket, Idle)
  {
    assert [] + [BucketProtection] == [BucketProtection];
  }

  lemma WedgeMiddleSteps()
    ensures var cr := Cr(false, [BucketProtection], YES, 2);
      && Step(World(Some(cr), 2, NoBucket, Idle), Get(true, true)) == World(Some(cr), 2, NoBucket, Checking(cr))
      && Step(World(Some(cr), 2, NoBucket, Checking(cr)), Exists(true)) == World(Some(cr), 2, NoBucket, Creating(cr))
      && Step(World(Some(cr), 2, NoBucket, Creating(cr)), CreateBucket(Answered)) == World(Some(cr), 2, Ours, Syncing(cr))
      && Step(World(Some(cr), 2, Ours, Syncing(cr)), SyncStatus(Answered)) == World(Some(cr.(version := 3)), 3, Ours, Idle)
      && Step(World(Some(cr.(version := 3)), 3, Ours, Idle), RequestDelete)
         == World(Some(Cr(true, [BucketProtection], YES, 4)), 4, Ours, Idle)
  {
  }

  lemma WedgeLastSteps()
    ensures var cr := Cr(true, [BucketProtection], YES, 4);
      && Step(World(Some(cr), 4, Ours, Idle), Get(true, true)) == World(Some(cr), 4, Ours, Deleting(cr))
      && Step(World(Some(cr), 4, Ours, Deleting(cr)), DeleteBucket(Answered)) == World(Some(cr), 4, NoBucket, Removing(cr))
      && Step(World(Some(cr), 4, NoBucket, Removing(cr)), Update(Broken(false))) == World(Some(cr), 4, NoBucket, Idle)
  {
  }

  function WedgeRun(): seq<Event> {
    [NewCr(YES), Get(true, true), Update(Answered), Get(true, true), Exists(true), CreateBucket(Answered), SyncStatus(Answered),
     RequestDelete, Get(true, true), DeleteBucket(Answered), Update(Broken(false))]
  }

  /** One failed update of the CR, after the bucket was created and deleted as asked, leads to such a state. */
  lemma WedgedDeletionIsReached()
    ensures var w := Run(START, WedgeRun());
      && w.pc.Idle? && w.bucket == NoBucket && HasMark(w) && AskedToDelete(w.cr.value) && !CanFinish(w)
  {
    WedgeFirstSteps();
    WedgeMiddleSteps();
    WedgeLastSteps();
    var cr := Cr(true, [BucketProtection], YES, 4);
    var end := World(Some(cr), 4, NoBucket, Idle);
    assert AskedToDelete(cr) && HasMark(end);
    WedgeRunIs(end);
    RunKeepsInv(WedgeRun());
    hide Step, Inv, HasMark, AskedToDelete, CanFinish, WedgeRun, Run;
    FinishesExactly(end);
  }

  lemma WedgeRunIs(end: World)
    requires end == World(Some(Cr(true, [BucketProtection], YES, 4)), 4, NoBucket, Idle)
    ensures Run(START, WedgeRun()) == end
  {
    WedgeFirstSteps();
    WedgeMiddleSteps();
    WedgeLastSteps();
    hide Step;
    var all := WedgeRun();
    var cr2, cr4 := Cr(false, [BucketProtection], YES, 2), Cr(true, [BucketProtection], YES, 4);
    RunPrefix(all, 0);
    RunPrefix(all, 1);
    RunPrefix(all, 2);
    assert Run(START, all[..3]) == World(Some(cr2), 2, NoBucket, Idle);
    RunPrefix(all, 3);
    RunPrefix(all, 4);
    RunPrefix(all, 5);
    RunPrefix(all, 6);
    RunPrefix(all, 7);
    assert Run(START, all[..8]) == World(Some(cr4), 4, Ours, Idle);
    RunPrefix(all, 8);
    RunPrefix(all, 9);
    RunPrefix(all, 10);
    assert all[..11] == all;
  }

  lemma RunPrefix(es: seq<Event>, i: nat)
    requires i < |es|
    ensures Run(START, es[..i + 1]) == Step(Run(START, es[..i]), es[i])
    ensures Run(START, es[..0]) == START
  {
    assert es[..i + 1][..i] == es[..i];
  }
}
