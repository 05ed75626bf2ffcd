/**
 The non-admin controller (NAC) may be installed in one namespace of the cluster only. Each
 namespace has its own operator; it reads its DPA, validates it against all others and, several
 steps later, creates or deletes its own deployment. Operators of different namespaces and users,
 who edit DPAs at any time, interleave between these steps.
 */
module NonAdmin {

  import opened Wrappers

  /** `spec.nonAdmin.enable`: nil (or no nonAdmin section), false, true. */
  datatype Enable = Unset | Off | On

  datatype Cluster = Cluster(dpas: map<string, Enable>, deployed: set<string>)

  /** `checkNonAdminEnabled` and a deployment to go with it. */
  predicate Active(c: Cluster, ns: string) {
    ns in c.dpas && c.dpas[ns] == On && ns in c.deployed
  }

  ghost predicate AtMostOne(c: Cluster) {
    forall m, n :: Active(c, m) && Active(c, n) ==> m == n
  }

  predicate OtherActive(c: Cluster, ns: string) {
    exists m :: m in c.deployed && m != ns && Active(c, m)
  }

  /** Some other active instance whose deployment can be read; a failed read counts as absent. */
  predicate OtherSeen(c: Cluster, ns: string, unreadable: set<string>) {
    exists m :: m in c.deployed && m != ns && Active(c, m) && m !in unreadable
  }

  /**
   The uniqueness check of the validator on the DPA as it was read; it is made whenever `enable` is
   set, also to false.
   */
  predicate Accepted(c: Cluster, ns: string, enable: Enable, unreadable: set<string>) {
    enable == Unset || !OtherSeen(c, ns, unreadable)
  }

  /** The validator's loop over the DPAs of the cluster. */
  method FindOtherInstance(c: Cluster, list: seq<string>, ns: string, unreadable: set<string>) returns (r: Option<string>)
    requires forall m :: m in list <==> m in c.dpas
    ensures r.None? <==> !OtherSeen(c, ns, unreadable)
    ensures r.Some? ==> r.value != ns && Active(c, r.value)
  {
    var i := 0;
    while i < |list|
      invariant 0 <= i <= |list|
      invariant forall k :: 0 <= k < i ==> list[k] == ns || !Active(c, list[k]) || list[k] in unreadable
    {
      var m := list[i];
      if m != ns && c.dpas[m] == On {
        var readable := m in c.deployed && m !in unreadable;
        if readable {
          assert OtherSeen(c, ns, unreadable);
          return Some(m);
        }
      }
      i := i + 1;
    }
    assert forall m :: m in list ==> m == ns || !Active(c, m) || m in unreadable;
    return None;
  }

  /** `ReconcileNonAdminController` for a DPA that was read with `enable`. */
  function Install(c: Cluster, ns: string, enable: Enable): Cluster {
    c.(deployed := if enable == On then c.deployed + {ns} else c.deployed - {ns})
  }

  /**
   The same, call by call. Success leaves a deployment exactly if NAC is enabled; a failed call leaves
   everything as it was; no other namespace is touched.
   */
  method ReconcileNonAdminController(c: Cluster, ns: string, enable: Enable) returns (ok: bool, d: Cluster)
    ensures if ok then d == Install(c, ns, enable) else d == c
    ensures ok ==> (ns in d.deployed <==> enable == On)
    ensures d.dpas == c.dpas && forall m :: m != ns ==> (m in d.deployed <==> m in c.deployed)
  {
    d := c;
    var failed: bool := *;
    if enable != On {
      if failed {
        return false, d;
      }
      if ns !in d.deployed {
        assert c.deployed - {ns} == c.deployed;
        return true, d;
      }
      failed := *;
      if failed {
        return false, d;
      }
      d := d.(deployed := d.deployed - {ns});
      return true, d;
    }
    if failed {
      return false, d;
    }
    d := d.(deployed := d.deployed + {ns});
    return true, d;
  }

  // ---------------------------------------------------------------- the machine

  /** Where the reconcile of a namespace stands: its DPA was read, or has passed validation. */
  datatype Stage = Copied(enable: Enable) | Approved(enable: Enable)

  datatype State = State(cluster: Cluster, stages: map<string, Stage>)

  /**
   `unreadable` are the instances a check fails to see, for whatever reason. `Create` is the call
   that installs or deletes; `applied` says whether it took effect. `Abort` stands for every other
   way in which a reconcile ends.
   */
  datatype Event =
    | SetDpa(ns: string, enable: Enable)
    | DropDpa(ns: string)
    | DropDeployment(ns: string)
    | Read(ns: string)
    | Check(ns: string, unreadable: set<string>)
    | Create(ns: string, applied: bool)
    | Abort(ns: string)

  predicate IsCopied(s: State, ns: string) {
    ns in s.stages && s.stages[ns].Copied?
  }

  predicate IsApproved(s: State, ns: string) {
    ns in s.stages && s.stages[ns].Approved?
  }

  function End(s: State, ns: string): State {
    s.(stages := s.stages - {ns})
  }

  function CheckStep(s: State, ns: string, unreadable: set<string>): State
    requires IsCopied(s, ns)
  {
    var enable := s.stages[ns].enable;
    if Accepted(s.cluster, ns, enable, unreadable) then s.(stages := s.stages[ns := Approved(enable)]) else End(s, ns)
  }

  /** One step; an event that is not enabled changes nothing. */
  function Step(s: State, e: Event): State {
    var c := s.cluster;
    match e
    case SetDpa(ns, enable) => s.(cluster := c.(dpas := c.dpas[ns := enable]))
    case DropDpa(ns) => s.(cluster := c.(dpas := c.dpas - {ns}))
    case DropDeployment(ns) => s.(cluster := c.(deployed := c.deployed - {ns}))
    case Read(ns) => if ns in c.dpas then s.(stages := s.stages[ns := Copied(c.dpas[ns])]) else End(s, ns)
    case Check(ns, unreadable) => if IsCopied(s, ns) then CheckStep(s, ns, unreadable) else s
    case Create(ns, applied) =>
      if !IsApproved(s, ns) then s
      else End(s.(cluster := if applied then Install(c, ns, s.stages[ns].enable) else c), ns)
    case Abort(ns) => End(s, ns)
  }

  /**
   The steps that make a second instance active: an approved creation while another instance has
   become active, and switching NAC on over a deployment that was left behind.
   */
  predicate Hazard(s: State, e: Event) {
    var c := s.cluster;
    match e
    case SetDpa(ns, enable) => enable == On && ns in c.deployed && OtherActive(c, ns)
    case Create(ns, applied) =>
      && applied && IsApproved(s, ns) && s.stages[ns].enable == On
      && ns in c.dpas && c.dpas[ns] == On && ns !in c.deployed && OtherActive(c, ns)
    case _ => false
  }

  lemma StepSafeExactly(s: State, e: Event)
    requires AtMostOne(s.cluster)
    ensures AtMostOne(Step(s, e).cluster) <==> !Hazard(s, e)
  {
    var c, d := s.cluster, Step(s, e).cluster;
    if Hazard(s, e) {
      var m :| m in c.deployed && m != e.ns && Active(c, m);
      assert Active(d, m) && Active(d, e.ns);
    } else {
      forall m, n | Active(d, m) && Active(d, n) ensures m == n {
        if Active(c, m) && Active(c, n) {
        } else if !Active(c, m) {
          NewlyActive(s, e, m, n);
        } else {
          NewlyActive(s, e, n, m);
        }
      }
    }
  }

  lemma NewlyActive(s: State, e: Event, m: string, n: string)
    requires AtMostOne(s.cluster) && !Hazard(s, e)
    requires Active(Step(s, e).cluster, m) && Active(Step(s, e).cluster, n) && !Active(s.cluster, m)
    ensures m == n
  {
    assert m == e.ns;
    if n != m {
      assert Active(s.cluster, n);
      assert OtherActive(s.cluster, m);
    }
  }

  // ---------------------------------------------------------------- runs

  function Run(s: State, es: seq<Event>): State {
    if es == [] then s else Step(Run(s, es[..|es| - 1]), es[|es| - 1])
  }

  lemma RunOne(s: State, es: seq<Event>, e: Event)
    ensures Run(s, es + [e]) == Step(Run(s, es), e)
  {
    assert (es + [e])[..|es|] == es;
  }

  /** Every state of the run, from the first to the last. */
  ghost predicate AlwaysAtMostOne(s: State, es: seq<Event>) {
    AtMostOne(Run(s, es).cluster) && (es != [] ==> AlwaysAtMostOne(s, es[..|es| - 1]))
  }

  /** No step of the run is hazardous. */
  predicate HazardFree(s: State, es: seq<Event>) {
    es == [] || (HazardFree(s, es[..|es| - 1]) && !Hazard(Run(s, es[..|es| - 1]), es[|es| - 1]))
  }

  /**
   A run, with reconciles of any number of namespaces interleaved, keeps at most one active instance
   throughout exactly when it has no hazardous step.
   */
  lemma {:induction false} UniqueExactly(s: State, es: seq<Event>)
    requires AtMostOne(s.cluster)
    ensures AlwaysAtMostOne(s, es) <==> HazardFree(s, es)
  {
    hide Step, Hazard, AtMostOne;
    if es != [] {
      var init := es[..|es| - 1];
      UniqueExactly(s, init);
      if AlwaysAtMostOne(s, init) {
        StepSafeExactly(Run(s, init), es[|es| - 1]);
      }
    }
  }

  // ---------------------------------------------------------------- what operators and users can do to be safe

  predicate AboutToInstall(s: State, ns: string) {
    ns in s.stages && s.stages[ns] == Approved(On)
  }

  /**
   Checks see every active instance and are not made while another namespace is about to install;
   NAC is switched on only where no deployment is left over.
   */
  predicate CarefulStep(s: State, e: Event) {
    match e
    case SetDpa(ns, enable) => enable == On ==> ns !in s.cluster.deployed
    case Check(ns, unreadable) => unreadable == {} && forall m :: m in s.stages && m != ns ==> !AboutToInstall(s, m)
    case _ => true
  }

  predicate Careful(s: State, es: seq<Event>) {
    es == [] || (Careful(s, es[..|es| - 1]) && CarefulStep(Run(s, es[..|es| - 1]), es[|es| - 1]))
  }

  /** A namespace about to install is the only one, and no other instance is active. */
  ghost predicate Serial(s: State) {
    forall m, n :: AboutToInstall(s, m) && m != n ==> !AboutToInstall(s, n) && !Active(s.cluster, n)
  }

  lemma SerialIsSafe(s: State, e: Event)
    requires Serial(s) && CarefulStep(s, e)
    ensures !Hazard(s, e)
  {
    assert AboutToInstall(s, e.ns) ==> !OtherActive(s.cluster, e.ns);
  }

  lemma CarefulStepKeepsSerial(s: State, e: Event)
    requires Serial(s) && CarefulStep(s, e)
    ensures Serial(Step(s, e))
  {
    var t := Step(s, e);
    forall m, n | AboutToInstall(t, m) && m != n ensures !AboutToInstall(t, n) && !Active(t.cluster, n) {
      if AboutToInstall(s, m) {
        StaysOnlyOne(s, e, m, n);
      } else {
        assert e.Check? && e.ns == m && IsCopied(s, m);
        assert Active(s.cluster, n) ==> OtherSeen(s.cluster, m, {});
      }
    }
  }

  lemma StaysOnlyOne(s: State, e: Event, m: string, n: string)
    requires Serial(s) && CarefulStep(s, e) && AboutToInstall(s, m) && m != n
    requires AboutToInstall(Step(s, e), m)
    ensures !AboutToInstall(Step(s, e), n) && !Active(Step(s, e).cluster, n)
  {
    assert !AboutToInstall(s, n) && !Active(s.cluster, n);
  }

  /** Careful runs from a quiet state are free of hazards. */
  lemma {:induction false} CarefulRunsAreUnique(s: State, es: seq<Event>)
    requires AtMostOne(s.cluster) && Serial(s) && Careful(s, es)
    ensures Serial(Run(s, es)) && HazardFree(s, es) && AlwaysAtMostOne(s, es)
  {
    hide Step, Hazard, AtMostOne, Serial, CarefulStep;
    if es != [] {
      var init := es[..|es| - 1];
      CarefulRunsAreUnique(s, init);
      SerialIsSafe(Run(s, init), es[|es| - 1]);
      CarefulStepKeepsSerial(Run(s, init), es[|es| - 1]);
    }
    UniqueExactly(s, es);
  }

  /** Every check sees everything and nobody edits a DPA, and yet two interleaved reconciles both install. */
  lemma SplitBreaksUniqueness(m: string, n: string) returns (es: seq<Event>)
    requires m != n
    ensures es == [Read(m), Read(n), Check(m, {}), Check(n, {}), Create(m, true), Create(n, true)]
    ensures var s := State(Cluster(map[m := On, n := On], {}), map[]);
      AtMostOne(s.cluster) && !AtMostOne(Run(s, es).cluster)
  {
    var c := Cluster(map[m := On, n := On], {});
    var s := State(c, map[]);
    var s2 := Step(Step(s, Read(m)), Read(n));
    var s4 := Step(Step(s2, Check(m, {})), Check(n, {}));
    assert s4.cluster == c && AboutToInstall(s4, m) && AboutToInstall(s4, n);
    var s6 := Step(Step(s4, Create(m, true)), Create(n, true));
    assert Active(s6.cluster, m) && Active(s6.cluster, n);
    hide Step, AtMostOne;
    assert Run(s, []) == s;
    es := [];
    RunOne(s, es, Read(m));
    es := es + [Read(m)];
    RunOne(s, es, Read(n));
    es := es + [Read(n)];
    RunOne(s, es, Check(m, {}));
    es := es + [Check(m, {})];
    RunOne(s, es, Check(n, {}));
    es := es + [Check(n, {})];
    RunOne(s, es, Create(m, true));
    es := es + [Create(m, true)];
    RunOne(s, es, Create(n, true));
    es := es + [Create(n, true)];
    assert !AtMostOne(s6.cluster) by { assert m != n; NotUnique(s6.cluster, m, n); }
    assert AtMostOne(s.cluster) by { NoneActive(s.cluster); }
  }

  lemma NotUnique(c: Cluster, m: string, n: string)
    requires Active(c, m) && Active(c, n) && m != n
    ensures !AtMostOne(c)
  {
  }

  lemma NoneActive(c: Cluster)
    requires c.deployed == {}
    ensures AtMostOne(c)
  {
  }

  // ---------------------------------------------------------------- leftovers

  /** A reconcile of one namespace with nobody in between. */
  function Whole(s: State, ns: string, unreadable: set<string>, applied: bool): State {
    Step(Step(Step(s, Read(ns)), Check(ns, unreadable)), Create(ns, applied))
  }

  /** An undivided reconcile breaks uniqueness exactly if its check overlooks the other instance. */
  lemma WholeSafeExactly(s: State, ns: string, unreadable: set<string>, applied: bool)
    requires AtMostOne(s.cluster)
    ensures AtMostOne(Whole(s, ns, unreadable, applied).cluster) <==>
      !(&& applied && ns in s.cluster.dpas && s.cluster.dpas[ns] == On && ns !in s.cluster.deployed
        && OtherActive(s.cluster, ns) && !OtherSeen(s.cluster, ns, unreadable))
  {
    StepSafeExactly(Step(Step(s, Read(ns)), Check(ns, unreadable)), Create(ns, applied));
    hide AtMostOne, OtherActive, OtherSeen;
  }

  /** What happens in a cluster whose reconciles do not overlap: a user's act, or an undivided reconcile. */
  datatype Turn = User(act: Event) | Undivided(ns: string, applied: bool)

  predicate IsUserAct(e: Event) {
    e.SetDpa? || e.DropDpa? || e.DropDeployment?
  }

  function TurnStep(s: State, t: Turn): State {
    match t
    case User(act) => if IsUserAct(act) then Step(s, act) else s
    case Undivided(ns, applied) => Whole(s, ns, {}, applied)
  }

  function Turns(s: State, ts: seq<Turn>): State {
    if ts == [] then s else TurnStep(Turns(s, ts[..|ts| - 1]), ts[|ts| - 1])
  }

  /** A user switches NAC on over a deployment that was left behind, next to an active instance. */
  predicate Rash(s: State, t: Turn) {
    && t.User? && t.act.SetDpa? && t.act.enable == On
    && t.act.ns in s.cluster.deployed && OtherActive(s.cluster, t.act.ns)
  }

  ghost predicate AlwaysUnique(s: State, ts: seq<Turn>) {
    AtMostOne(Turns(s, ts).cluster) && (ts != [] ==> AlwaysUnique(s, ts[..|ts| - 1]))
  }

  predicate NeverRash(s: State, ts: seq<Turn>) {
    ts == [] || (NeverRash(s, ts[..|ts| - 1]) && !Rash(Turns(s, ts[..|ts| - 1]), ts[|ts| - 1]))
  }

  lemma TurnSafeExactly(s: State, t: Turn)
    requires AtMostOne(s.cluster)
    ensures AtMostOne(TurnStep(s, t).cluster) <==> !Rash(s, t)
  {
    match t
    case User(act) =>
      StepSafeExactly(s, act);
      hide AtMostOne;
    case Undivided(ns, applied) =>
      WholeSafeExactly(s, ns, {}, applied);
      assert OtherActive(s.cluster, ns) ==> OtherSeen(s.cluster, ns, {});
      hide AtMostOne, Whole;
  }

  /** With undivided reconciles whose checks see everything, only rash switching-on breaks uniqueness. */
  lemma {:induction false} UndividedUniqueExactly(s: State, ts: seq<Turn>)
    requires AtMostOne(s.cluster)
    ensures AlwaysUnique(s, ts) <==> NeverRash(s, ts)
  {
    hide TurnStep, Rash, AtMostOne;
    if ts != [] {
      var init := ts[..|ts| - 1];
      UndividedUniqueExactly(s, init);
      if AlwaysUnique(s, init) {
        TurnSafeExactly(Turns(s, init), ts[|ts| - 1]);
      }
    }
  }

  /**
   The leftovers that make switching on hazardous are not always cleaned up: a reconcile of a
   namespace that is not enabled removes its deployment exactly if `enable` is unset or no other
   active instance is seen.
   */
  lemma LeftoverRemovedExactly(s: State, ns: string, unreadable: set<string>, applied: bool)
    requires ns in s.cluster.dpas && s.cluster.dpas[ns] != On && ns in s.cluster.deployed
    ensures ns !in Whole(s, ns, unreadable, applied).cluster.deployed
      <==> applied && (s.cluster.dpas[ns] == Unset || !OtherSeen(s.cluster, ns, unreadable))
  {
    hide OtherSeen;
  }

  const NOTHING := State(Cluster(map[], {}), map[])

  function LeftoverRun(a: string, b: string): seq<Event> {
    [SetDpa(a, On), Read(a), Check(a, {}), Create(a, true), SetDpa(a, Off), SetDpa(b, On), Read(b), Check(b, {}), Create(b, true)]
  }

  function LeftBehind(a: string, b: string): State {
    State(Cluster(map[a := Off, b := On], {a, b}), map[])
  }

  lemma RunPrefix(s: State, es: seq<Event>, i: nat)
    requires i < |es|
    ensures Run(s, es[..0]) == s && Run(s, es[..i + 1]) == Step(Run(s, es[..i]), es[i])
  {
    assert es[..i + 1][..i] == es[..i];
  }

  lemma FirstInstall(a: string)
    ensures Whole(Step(NOTHING, SetDpa(a, On)), a, {}, true) == State(Cluster(map[a := On], {a}), map[])
  {
    var c := Cluster(map[a := On], {});
    assert Step(NOTHING, SetDpa(a, On)) == State(c, map[]);
    assert Accepted(c, a, On, {});
    assert Step(State(c, map[]), Read(a)) == State(c, map[a := Copied(On)]);
    assert Step(State(c, map[a := Copied(On)]), Check(a, {})) == State(c, map[a := Approved(On)]);
  }

  lemma SecondInstall(a: string, b: string)
    requires a != b
    ensures Whole(State(Cluster(map[a := Off, b := On], {a}), map[]), b, {}, true) == LeftBehind(a, b)
  {
    var c := Cluster(map[a := Off, b := On], {a});
    assert Accepted(c, b, On, {});
    assert Step(State(c, map[]), Read(b)) == State(c, map[b := Copied(On)]);
    assert Step(State(c, map[b := Copied(On)]), Check(b, {})) == State(c, map[b := Approved(On)]);
  }

  /**
   From an empty cluster, with checks that see everything: `a` installs and is switched off, `b` installs
   before `a` is reconciled. Then `a` is disabled and deployed next to `b`, and no reconcile removes it.
   */
  lemma LeftoverIsReached(a: string, b: string)
    requires a != b
    ensures var s := Run(NOTHING, LeftoverRun(a, b));
      && s == LeftBehind(a, b) && Active(s.cluster, b)
      && forall applied :: a in Whole(s, a, {}, applied).cluster.deployed
  {
    var es := LeftoverRun(a, b);
    FirstInstall(a);
    SecondInstall(a, b);
    var s4 := State(Cluster(map[a := On], {a}), map[]);
    var s6 := State(Cluster(map[a := Off, b := On], {a}), map[]);
    assert Step(Step(s4, SetDpa(a, Off)), SetDpa(b, On)) == s6;
    hide Step;
    RunPrefix(NOTHING, es, 0);
    RunPrefix(NOTHING, es, 1);
    RunPrefix(NOTHING, es, 2);
    RunPrefix(NOTHING, es, 3);
    assert Run(NOTHING, es[..4]) == s4;
    RunPrefix(NOTHING, es, 4);
    RunPrefix(NOTHING, es, 5);
    assert Run(NOTHING, es[..6]) == s6;
    RunPrefix(NOTHING, es, 6);
    RunPrefix(NOTHING, es, 7);
    RunPrefix(NOTHING, es, 8);
    assert es[..9] == es;
    hide Run, Whole;
    var s := LeftBehind(a, b);
    assert Active(s.cluster, b) && OtherSeen(s.cluster, a, {});
    forall applied ensures a in Whole(s, a, {}, applied).cluster.deployed {
      LeftoverRemovedExactly(s, a, {}, applied);
    }
  }

  /** `enable` stays false, nobody else deletes the deployment, and every check sees another active instance. */
  predicate Shadowed(s: State, ns: string, es: seq<Event>) {
    if es == [] then true
    else
      var before, e := Run(s, es[..|es| - 1]), es[|es| - 1];
      && Shadowed(s, ns, es[..|es| - 1])
      && (e.SetDpa? && e.ns == ns ==> e.enable == Off)
      && (e.DropDeployment? ==> e.ns != ns)
      && (e.Check? && e.ns == ns ==> OtherSeen(before.cluster, ns, e.unreadable))
  }

  /** Through every such run, however reconciles interleave, a namespace with `enable` false keeps its deployment. */
  lemma {:induction false} LeftoverSurvives(s: State, ns: string, es: seq<Event>)
    requires ns in s.cluster.deployed && !IsApproved(s, ns) && Shadowed(s, ns, es)
    requires (ns in s.cluster.dpas ==> s.cluster.dpas[ns] == Off) && (ns in s.stages ==> s.stages[ns].enable == Off)
    ensures var t := Run(s, es);
      && ns in t.cluster.deployed && !IsApproved(t, ns)
      && (ns in t.cluster.dpas ==> t.cluster.dpas[ns] == Off) && (ns in t.stages ==> t.stages[ns].enable == Off)
  {
    if es != [] {
      LeftoverSurvives(s, ns, es[..|es| - 1]);
      hide OtherSeen, Run;
    }
  }
}
