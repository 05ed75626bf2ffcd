/**
 Desired-state reconciliation of backup and volume snapshot locations: create or patch every
 desired object, list the labelled ones, and delete the labelled objects that are not desired
 -- but only when the number of labelled objects differs from the number of desired ones.
 */
module Locations {

  import opened Wrappers

  /** The label keys the operator uses, and all others. */
  datatype LabelKey =
    | RegistryKey     // openshift.io/oadp-registry
    | NameKey         // app.kubernetes.io/name
    | InstanceKey     // app.kubernetes.io/instance
    | ManagedByKey    // app.kubernetes.io/managed-by
    | ComponentKey    // app.kubernetes.io/component
    | OadpKey         // openshift.io/oadp
    | OtherKey(key: string)

  type Labels = map<LabelKey, string>

  /** `body` stands for the spec fields every branch sets, `extra` for those only Velero specs set. */
  datatype LocationSpec = LocationSpec(provider: string, config: Option<map<string, string>>, body: int, extra: int)

  datatype Object = Object(labels: Labels, spec: LocationSpec)

  const ABSENT := Object(map[], LocationSpec("", None, 0, 0))

  /** What reconciling one location assigns to the object, created or found. */
  datatype Patch = Patch(replaceLabels: bool, labels: Labels,
                         provider: string, config: Option<map<string, string>>, body: int, extra: Option<int>)

  function Apply(p: Patch, o: Object): Object {
    Object(if p.replaceLabels then p.labels else o.labels + p.labels,
           LocationSpec(p.provider, p.config, p.body, if p.extra.Some? then p.extra.value else o.spec.extra))
  }

  datatype Wanted = Wanted(name: string, patch: Patch)

  type Objects = map<string, Object>

  function Found(objs: Objects, n: string): Object {
    if n in objs then objs[n] else ABSENT
  }

  // ---------------------------------------------------------------- one pass

  function ApplyAll(ws: seq<Wanted>, objs: Objects): Objects {
    if ws == [] then objs
    else
      var before := ApplyAll(ws[..|ws| - 1], objs);
      var w := ws[|ws| - 1];
      before[w.name := Apply(w.patch, Found(before, w.name))]
  }

  predicate Matches(sel: Labels, labels: Labels) {
    forall k :: k in sel ==> k in labels && labels[k] == sel[k]
  }

  function Labelled(sel: Labels, objs: Objects): set<string> {
    set n | n in objs && Matches(sel, objs[n].labels)
  }

  function Names(ws: seq<Wanted>): set<string> {
    set i | 0 <= i < |ws| :: ws[i].name
  }

  /** Labelled objects that are not desired. */
  function Stale(sel: Labels, ws: seq<Wanted>, objs: Objects): set<string> {
    Labelled(sel, objs) - Names(ws)
  }

  function Prune(sel: Labels, ws: seq<Wanted>, objs: Objects): Objects {
    if |ws| == |Labelled(sel, objs)| then objs else objs - Stale(sel, ws, objs)
  }

  function Pass(sel: Labels, ws: seq<Wanted>, objs: Objects): Objects {
    Prune(sel, ws, ApplyAll(ws, objs))
  }

  // ---------------------------------------------------------------- patches of one name

  function Compose(a: Patch, b: Patch): Patch {
    Patch(a.replaceLabels || b.replaceLabels, if b.replaceLabels then b.labels else a.labels + b.labels,
          b.provider, b.config, b.body, if b.extra.Some? then b.extra else a.extra)
  }

  lemma ApplyCompose(a: Patch, b: Patch, o: Object)
    ensures Apply(b, Apply(a, o)) == Apply(Compose(a, b), o)
  {
    assert (o.labels + a.labels) + b.labels == o.labels + (a.labels + b.labels);
  }

  lemma ApplyTwice(p: Patch, o: Object)
    ensures Apply(p, Apply(p, o)) == Apply(p, o)
  {
    assert (o.labels + p.labels) + p.labels == o.labels + p.labels;
  }

  /** All patches for one name as a single patch. */
  function Combined(ws: seq<Wanted>, n: string): Option<Patch> {
    if ws == [] then None
    else
      var before := Combined(ws[..|ws| - 1], n);
      var w := ws[|ws| - 1];
      if w.name != n then before
      else if before.None? then Some(w.patch)
      else Some(Compose(before.value, w.patch))
  }

  /** The object after all patches for its name. */
  function Patched(ws: seq<Wanted>, n: string, o: Object): Object {
    match Combined(ws, n)
    case None => o
    case Some(p) => Apply(p, o)
  }

  lemma {:induction false} CombinedIsNamed(ws: seq<Wanted>, n: string)
    ensures Combined(ws, n).Some? <==> n in Names(ws)
  {
    if ws != [] {
      CombinedIsNamed(ws[..|ws| - 1], n);
      NamesSnoc(ws);
    }
  }

  lemma NamesSnoc(ws: seq<Wanted>)
    requires ws != []
    ensures Names(ws) == Names(ws[..|ws| - 1]) + {ws[|ws| - 1].name}
  {
    var k := |ws| - 1;
    forall n | n in Names(ws) ensures n in Names(ws[..k]) + {ws[k].name} {
      var i :| 0 <= i < |ws| && ws[i].name == n;
      assert i < k ==> ws[..k][i].name == n;
    }
    forall n | n in Names(ws[..k]) ensures n in Names(ws) {
      var i :| 0 <= i < k && ws[..k][i].name == n;
      assert ws[i].name == n;
    }
    assert ws[k].name in Names(ws);
  }

  /** After the loop an object is its combined patch applied to what was found; others are untouched. */
  lemma {:induction false} ApplyAllAt(ws: seq<Wanted>, objs: Objects, n: string)
    ensures n in ApplyAll(ws, objs) <==> n in objs || n in Names(ws)
    ensures n in ApplyAll(ws, objs) ==> ApplyAll(ws, objs)[n] == Patched(ws, n, Found(objs, n))
  {
    CombinedIsNamed(ws, n);
    if ws != [] {
      var init, w := ws[..|ws| - 1], ws[|ws| - 1];
      ApplyAllAt(init, objs, n);
      CombinedIsNamed(init, n);
      NamesSnoc(ws);
      hide Names;
      if w.name == n && Combined(init, n).Some? {
        ApplyCompose(Combined(init, n).value, w.patch, Found(objs, n));
      }
    }
  }

  lemma ApplyAllFrame(ws: seq<Wanted>, objs: Objects)
    ensures forall n :: n in objs ==> n in ApplyAll(ws, objs)
    ensures forall n :: n in objs && n !in Names(ws) ==> ApplyAll(ws, objs)[n] == objs[n]
  {
    forall n | n in objs
      ensures n in ApplyAll(ws, objs) && (n !in Names(ws) ==> ApplyAll(ws, objs)[n] == objs[n])
    {
      ApplyAllAt(ws, objs, n);
      CombinedIsNamed(ws, n);
    }
  }

  /** Objects that agree on the desired names end up equal there. */
  lemma ApplyAllAgain(ws: seq<Wanted>, objs: Objects, later: Objects)
    requires forall n :: n in Names(ws) ==> n in later && later[n] == Patched(ws, n, Found(objs, n))
    ensures ApplyAll(ws, later) == later
  {
    forall n ensures n in ApplyAll(ws, later) <==> n in later
             ensures n in later ==> ApplyAll(ws, later)[n] == later[n]
    {
      ApplyAllAt(ws, later, n);
      CombinedIsNamed(ws, n);
      if n in Names(ws) {
        ApplyTwice(Combined(ws, n).value, Found(objs, n));
      }
    }
  }

  // ---------------------------------------------------------------- what a pass keeps

  /**
   With no hypothesis on names or labels: a pass never deletes a desired object or one without
   the labels, and it does not touch an unlabelled object outside the spec.
   */
  lemma PassProtects(sel: Labels, ws: seq<Wanted>, objs: Objects, n: string)
    ensures n in Names(ws) ==> n in Pass(sel, ws, objs) && Pass(sel, ws, objs)[n] == Patched(ws, n, Found(objs, n))
    ensures n !in Names(ws) && n in objs && !Matches(sel, objs[n].labels)
      ==> n in Pass(sel, ws, objs) && Pass(sel, ws, objs)[n] == objs[n]
    ensures n in Pass(sel, ws, objs) && n !in Names(ws) ==> n in objs && Pass(sel, ws, objs)[n] == objs[n]
  {
    ApplyAllAt(ws, objs, n);
    CombinedIsNamed(ws, n);
  }

  /** A second pass changes nothing, with no hypothesis on names or labels. */
  lemma PassTwice(sel: Labels, ws: seq<Wanted>, objs: Objects)
    ensures Pass(sel, ws, Pass(sel, ws, objs)) == Pass(sel, ws, objs)
  {
    var once := ApplyAll(ws, objs);
    var out := Pass(sel, ws, objs);
    forall n | n in Names(ws) ensures n in out && out[n] == Patched(ws, n, Found(objs, n)) {
      PassProtects(sel, ws, objs, n);
    }
    ApplyAllAgain(ws, objs, out);
    if |ws| != |Labelled(sel, once)| {
      PrunedHasNoStale(sel, ws, once);
    }
  }

  lemma PrunedHasNoStale(sel: Labels, ws: seq<Wanted>, objs: Objects)
    ensures var out := objs - Stale(sel, ws, objs); Stale(sel, ws, out) == {} && out - Stale(sel, ws, out) == out
  {
  }

  // ---------------------------------------------------------------- when the count is enough

  /** A patch sets all the labels of the selector, or none at all. */
  predicate LabelsAllOrNothing(sel: Labels, ws: seq<Wanted>) {
    forall i :: 0 <= i < |ws| ==> Matches(sel, ws[i].patch.labels) || (ws[i].patch.labels == map[] && !ws[i].patch.replaceLabels)
  }

  predicate SomePatchLabels(sel: Labels, ws: seq<Wanted>, n: string) {
    exists i :: 0 <= i < |ws| && ws[i].name == n && Matches(sel, ws[i].patch.labels)
  }

  /** Desired objects that no patch labels and that were not labelled before. */
  function Unlabelled(sel: Labels, ws: seq<Wanted>, objs: Objects): set<string> {
    set n | n in Names(ws) && !SomePatchLabels(sel, ws, n) && n !in Labelled(sel, objs)
  }

  lemma {:induction false} CombinedLabels(sel: Labels, ws: seq<Wanted>, n: string, o: Object)
    requires LabelsAllOrNothing(sel, ws) && Combined(ws, n).Some?
    ensures Matches(sel, Apply(Combined(ws, n).value, o).labels)
      <==> SomePatchLabels(sel, ws, n) || Matches(sel, o.labels)
  {
    var k := |ws| - 1;
    var init, w := ws[..k], ws[k];
    assert LabelsAllOrNothing(sel, init) by {
      assert forall i :: 0 <= i < k ==> init[i] == ws[i];
    }
    SomePatchSnoc(sel, ws, n);
    if Combined(init, n).Some? {
      CombinedLabels(sel, init, n, o);
      if w.name == n {
        ApplyCompose(Combined(init, n).value, w.patch, o);
        OnePatchLabels(sel, w.patch, Apply(Combined(init, n).value, o));
      }
    } else {
      CombinedIsNamed(init, n);
      NotNamedNotLabelled(sel, init, n);
      OnePatchLabels(sel, w.patch, o);
    }
  }

  lemma OnePatchLabels(sel: Labels, p: Patch, o: Object)
    requires Matches(sel, p.labels) || (p.labels == map[] && !p.replaceLabels)
    ensures Matches(sel, Apply(p, o).labels) <==> Matches(sel, p.labels) || Matches(sel, o.labels)
  {
    if !Matches(sel, p.labels) {
      assert o.labels + p.labels == o.labels;
    }
  }

  lemma NotNamedNotLabelled(sel: Labels, ws: seq<Wanted>, n: string)
    requires n !in Names(ws)
    ensures !SomePatchLabels(sel, ws, n)
  {
  }

  lemma SomePatchSnoc(sel: Labels, ws: seq<Wanted>, n: string)
    requires ws != []
    ensures SomePatchLabels(sel, ws, n)
      <==> SomePatchLabels(sel, ws[..|ws| - 1], n) || (ws[|ws| - 1].name == n && Matches(sel, ws[|ws| - 1].patch.labels))
  {
    var k := |ws| - 1;
    hide Matches;
    if SomePatchLabels(sel, ws, n) {
      var i :| 0 <= i < |ws| && ws[i].name == n && Matches(sel, ws[i].patch.labels);
      assert i < k ==> ws[..k][i] == ws[i];
    }
    if SomePatchLabels(sel, ws[..k], n) {
      var i :| 0 <= i < k && ws[..k][i].name == n && Matches(sel, ws[..k][i].patch.labels);
      assert ws[i] == ws[..k][i];
    }
  }

  /** The labelled objects after the loop, in terms of the state before it. */
  lemma LabelledAfter(sel: Labels, ws: seq<Wanted>, objs: Objects)
    requires LabelsAllOrNothing(sel, ws) && sel != map[]
    ensures Labelled(sel, ApplyAll(ws, objs)) == (Names(ws) - Unlabelled(sel, ws, objs)) + Stale(sel, ws, objs)
    ensures Stale(sel, ws, ApplyAll(ws, objs)) == Stale(sel, ws, objs)
    ensures Stale(sel, ws, objs) <= ApplyAll(ws, objs).Keys
  {
    var k :| k in sel;
    assert !Matches(sel, ABSENT.labels);
    forall n ensures n in Labelled(sel, ApplyAll(ws, objs))
                <==> n in (Names(ws) - Unlabelled(sel, ws, objs)) + Stale(sel, ws, objs)
    {
      ApplyAllAt(ws, objs, n);
      CombinedIsNamed(ws, n);
      if n in Names(ws) {
        CombinedLabels(sel, ws, n, Found(objs, n));
      }
      hide Matches, Names, SomePatchLabels, Combined, ApplyAll;
    }
  }

  predicate Distinct(ws: seq<Wanted>) {
    forall i, j :: 0 <= i < j < |ws| ==> ws[i].name != ws[j].name
  }

  lemma DistinctSnoc(ws: seq<Wanted>)
    requires ws != []
    ensures var k := |ws| - 1; Distinct(ws) <==> Distinct(ws[..k]) && ws[k].name !in Names(ws[..k])
  {
    var k := |ws| - 1;
    assert forall i :: 0 <= i < k ==> ws[..k][i] == ws[i];
    assert forall i :: 0 <= i < k ==> ws[..k][i].name in Names(ws[..k]);
  }

  lemma {:induction false} NamesCount(ws: seq<Wanted>)
    ensures |Names(ws)| <= |ws|
    ensures |Names(ws)| == |ws| <==> Distinct(ws)
  {
    if ws != [] {
      NamesCount(ws[..|ws| - 1]);
      NamesSnoc(ws);
      DistinctSnoc(ws);
      hide Names, Distinct;
    }
  }

  lemma SetCount<T>(names: set<T>, missing: set<T>, stale: set<T>)
    requires missing <= names && stale !! names
    ensures |(names - missing) + stale| == |names| - |missing| + |stale|
  {
    assert |names - missing| == |names| - |missing|;
  }

  lemma LabelledCount(sel: Labels, ws: seq<Wanted>, objs: Objects)
    requires LabelsAllOrNothing(sel, ws) && sel != map[]
    ensures |Labelled(sel, ApplyAll(ws, objs))|
         == |Names(ws)| - |Unlabelled(sel, ws, objs)| + |Stale(sel, ws, objs)|
  {
    LabelledAfter(sel, ws, objs);
    SetCount(Names(ws), Unlabelled(sel, ws, objs), Stale(sel, ws, objs));
  }

  lemma RemovingNothing(objs: Objects, stale: set<string>)
    requires stale <= objs.Keys
    ensures objs - stale == objs <==> stale == {}
  {
    if stale != {} {
      var n :| n in stale;
      assert n in objs && n !in objs - stale;
    }
  }

  /**
   Comparing counts instead of sets misses the stale objects exactly when there are some and they
   are as many as the duplicate names and the unlabelled desired objects together.
   */
  lemma CountGuardExact(sel: Labels, ws: seq<Wanted>, objs: Objects)
    requires LabelsAllOrNothing(sel, ws) && sel != map[]
    ensures var stale := Stale(sel, ws, objs);
      Pass(sel, ws, objs) == ApplyAll(ws, objs) - stale
      <==> (stale == {} || |stale| != (|ws| - |Names(ws)|) + |Unlabelled(sel, ws, objs)|)
  {
    hide ApplyAll, Labelled, Unlabelled, Names, LabelsAllOrNothing, Stale;
    LabelledAfter(sel, ws, objs);
    LabelledCount(sel, ws, objs);
    RemovingNothing(ApplyAll(ws, objs), Stale(sel, ws, objs));
  }

  /**
   With pairwise distinct names and patches that all set the labels, a pass from any state leaves
   exactly the desired objects labelled, each with its patch applied.
   */
  lemma PassConverges(sel: Labels, ws: seq<Wanted>, objs: Objects)
    requires sel != map[]
    requires forall i :: 0 <= i < |ws| ==> Matches(sel, ws[i].patch.labels)
    requires Distinct(ws)
    ensures Labelled(sel, Pass(sel, ws, objs)) == Names(ws)
    ensures forall i :: 0 <= i < |ws| ==>
      ws[i].name in Pass(sel, ws, objs) && Pass(sel, ws, objs)[ws[i].name] == Apply(ws[i].patch, Found(objs, ws[i].name))
  {
    ConvergedLabels(sel, ws, objs);
    forall i | 0 <= i < |ws|
      ensures ws[i].name in Pass(sel, ws, objs) && Pass(sel, ws, objs)[ws[i].name] == Apply(ws[i].patch, Found(objs, ws[i].name))
    {
      hide Pass, Labelled, Matches;
      assert ws[i].name in Names(ws);
      PassProtects(sel, ws, objs, ws[i].name);
      CombinedOfDistinct(ws, i);
    }
    hide Pass, Labelled, Matches;
  }

  lemma ConvergedLabels(sel: Labels, ws: seq<Wanted>, objs: Objects)
    requires sel != map[]
    requires forall i :: 0 <= i < |ws| ==> Matches(sel, ws[i].patch.labels)
    requires Distinct(ws)
    ensures Labelled(sel, Pass(sel, ws, objs)) == Names(ws)
  {
    hide Pass, ApplyAll, Matches, Unlabelled, Names, Labelled;
    AllAreLabelled(sel, ws, objs);
    NamesCount(ws);
    CountGuardExact(sel, ws, objs);
    var names, stale := Names(ws), Stale(sel, ws, objs);
    assert |stale| != 0 <==> stale != {};
    assert Pass(sel, ws, objs) == ApplyAll(ws, objs) - stale;
    LabelledAfter(sel, ws, objs);
    assert names - {} == names;
    assert stale !! names;
    PrunedLabelled(sel, ApplyAll(ws, objs), stale, names);
  }

  lemma AllAreLabelled(sel: Labels, ws: seq<Wanted>, objs: Objects)
    requires forall i :: 0 <= i < |ws| ==> Matches(sel, ws[i].patch.labels)
    ensures Unlabelled(sel, ws, objs) == {}
  {
    hide Matches;
    forall n | n in Names(ws) ensures SomePatchLabels(sel, ws, n) {
      var i :| 0 <= i < |ws| && ws[i].name == n;
    }
  }

  lemma PrunedLabelled(sel: Labels, objs: Objects, stale: set<string>, names: set<string>)
    requires Labelled(sel, objs) == names + stale && stale !! names
    ensures Labelled(sel, objs - stale) == names
  {
  }

  lemma {:induction false} CombinedOfDistinct(ws: seq<Wanted>, i: nat)
    requires i < |ws|
    requires Distinct(ws)
    ensures Combined(ws, ws[i].name) == Some(ws[i].patch)
  {
    var k := |ws| - 1;
    assert forall a :: 0 <= a < k ==> ws[..k][a] == ws[a];
    if i < k {
      CombinedOfDistinct(ws[..k], i);
    } else {
      CombinedIsNamed(ws[..k], ws[k].name);
    }
  }

  // ---------------------------------------------------------------- when stale objects stay

  /** Two desired objects of one name hide a stale one. */
  lemma SharedNameHides(sel: Labels, ws: seq<Wanted>, name: string, old_: string, o: Object)
    requires LabelsAllOrNothing(sel, ws) && sel != map[] && Matches(sel, o.labels) && name != old_
    requires |ws| == 2 && ws[0].name == name && ws[1].name == name && Matches(sel, ws[0].patch.labels)
    ensures Stale(sel, ws, Pass(sel, ws, map[old_ := o])) == {old_}
  {
    hide Matches;
    assert Names(ws) == {name};
    assert SomePatchLabels(sel, ws, name);
    assert Unlabelled(sel, ws, map[old_ := o]) == {};
    assert Stale(sel, ws, map[old_ := o]) == {old_};
    hide Pass, LabelsAllOrNothing;
    NotPruned(sel, ws, map[old_ := o]);
  }

  /** A desired object without labels hides a stale one. */
  lemma MissingLabelsHide(sel: Labels, ws: seq<Wanted>, old_: string, o: Object)
    requires LabelsAllOrNothing(sel, ws) && sel != map[] && Matches(sel, o.labels)
    requires |ws| == 1 && ws[0].name != old_ && !Matches(sel, ws[0].patch.labels)
    ensures Stale(sel, ws, Pass(sel, ws, map[old_ := o])) == {old_}
  {
    hide Matches;
    assert Names(ws) == {ws[0].name};
    assert !SomePatchLabels(sel, ws, ws[0].name);
    assert Unlabelled(sel, ws, map[old_ := o]) == {ws[0].name};
    assert Stale(sel, ws, map[old_ := o]) == {old_};
    hide Pass, LabelsAllOrNothing;
    NotPruned(sel, ws, map[old_ := o]);
  }

  lemma NotPruned(sel: Labels, ws: seq<Wanted>, objs: Objects)
    requires LabelsAllOrNothing(sel, ws) && sel != map[]
    requires |Stale(sel, ws, objs)| == (|ws| - |Names(ws)|) + |Unlabelled(sel, ws, objs)|
    ensures Stale(sel, ws, Pass(sel, ws, objs)) == Stale(sel, ws, objs)
  {
    LabelledAfter(sel, ws, objs);
    LabelledCount(sel, ws, objs);
    hide ApplyAll, Labelled, Unlabelled, Names;
  }
}
