/**
 The chain of periods a DPA with non-admin must keep: the default backup storage location
 syncs more often than the non-admin controller, and that more often than its garbage
 collection. The validator compares with the default location found in the cluster, or with
 the DPA's own location when the operator manages that one.
 */
module SyncPeriods {

  import opened Wrappers

  const SECOND := 1_000_000_000
  const DEFAULT_GC := 24 * 60 * 60 * SECOND
  const DEFAULT_SYNC := 2 * 60 * SECOND
  const VELERO_SYNC := 60 * SECOND

  /** A backup storage location in the namespace. */
  datatype ClusterBsl = ClusterBsl(isDefault: bool, managed: bool, period: Option<int>)

  /** A backup location of the DPA. */
  datatype Location = Velero(name: string, isDefault: bool, period: Option<int>) | CloudStorage(name: string, isDefault: bool)

  /** `enforced`: no enforced BSL spec, or one with an optional period. */
  datatype NonAdmin = NonAdmin(garbageCollection: Option<int>, sync: Option<int>, enforced: Option<Option<int>>)

  /** `serverPeriod` is the sync period of the Velero server args, if both are set. */
  datatype Dpa = Dpa(noDefaultBackupLocation: bool, locations: seq<Location>, serverPeriod: Option<int>, nonAdmin: NonAdmin)

  // ---------------------------------------------------------------- default locations of the DPA

  predicate IsDefaultAt(ls: seq<Location>, i: int) {
    0 <= i < |ls| && ls[i].isDefault
  }

  predicate UniqueDefault(ls: seq<Location>, i: int) {
    IsDefaultAt(ls, i) && forall j :: 0 <= j < |ls| && ls[j].isDefault ==> j == i
  }

  /** The checks on defaults: none without default location, otherwise exactly one, and "default" only for it. */
  ghost predicate DefaultsValid(d: Dpa) {
    && (if d.noDefaultBackupLocation then d.locations == [] else exists i :: UniqueDefault(d.locations, i))
    && (forall i :: 0 <= i < |d.locations| && d.locations[i].name == "default" ==> d.locations[i].isDefault)
  }

  function CountDefaults(ls: seq<Location>): nat {
    if ls == [] then 0 else CountDefaults(ls[..|ls| - 1]) + if ls[|ls| - 1].isDefault then 1 else 0
  }

  lemma {:induction false} CountZero(ls: seq<Location>)
    ensures CountDefaults(ls) == 0 <==> forall i :: 0 <= i < |ls| ==> !ls[i].isDefault
  {
    if ls != [] {
      CountZero(ls[..|ls| - 1]);
      assert forall i :: 0 <= i < |ls| - 1 ==> ls[..|ls| - 1][i] == ls[i];
    }
  }

  lemma {:induction false} CountOne(ls: seq<Location>)
    ensures CountDefaults(ls) == 1 <==> exists i :: UniqueDefault(ls, i)
  {
    if ls != [] {
      var k := |ls| - 1;
      var init := ls[..k];
      assert forall i :: 0 <= i < k ==> init[i] == ls[i];
      if ls[k].isDefault {
        CountZero(init);
        if CountDefaults(init) == 0 {
          assert UniqueDefault(ls, k);
        }
      } else {
        CountOne(init);
        if i :| UniqueDefault(ls, i) {
          assert UniqueDefault(init, i);
        }
        if i :| UniqueDefault(init, i) {
          assert UniqueDefault(ls, i);
        }
      }
    }
  }

  /** The counting loop of `ValidateBackupStorageLocations` and the length checks before it. */
  method ValidateDefaults(d: Dpa) returns (ok: bool)
    ensures ok <==> DefaultsValid(d)
  {
    if d.noDefaultBackupLocation {
      if |d.locations| != 0 {
        return false;
      }
    } else if |d.locations| == 0 {
      assert forall i :: !UniqueDefault(d.locations, i);
      return false;
    }
    var numDefaultLocations := 0;
    var i := 0;
    while i < |d.locations|
      invariant 0 <= i <= |d.locations|
      invariant numDefaultLocations == CountDefaults(d.locations[..i])
      invariant forall k :: 0 <= k < i && d.locations[k].name == "default" ==> d.locations[k].isDefault
    {
      assert d.locations[..i + 1][..i] == d.locations[..i];
      if d.locations[i].isDefault {
        numDefaultLocations := numDefaultLocations + 1;
      } else if d.locations[i].name == "default" {
        return false;
      }
      i := i + 1;
    }
    assert d.locations[..|d.locations|] == d.locations;
    CountOne(d.locations);
    if numDefaultLocations > 1 {
      return false;
    }
    if numDefaultLocations == 0 && !d.noDefaultBackupLocation {
      return false;
    }
    return true;
  }

  // ---------------------------------------------------------------- the period checks

  datatype Outcome = Accept | Reject | Panic

  function OrElse(o: Option<int>, default_: int): int {
    if o.Some? then o.value else default_
  }

  function Sync(d: Dpa): int {
    OrElse(d.nonAdmin.sync, DEFAULT_SYNC)
  }

  function GarbageCollection(d: Dpa): int {
    OrElse(d.nonAdmin.garbageCollection, DEFAULT_GC)
  }

  predicate OwnPeriodsOk(d: Dpa) {
    && OrElse(d.nonAdmin.garbageCollection, 0) >= 0
    && OrElse(d.nonAdmin.sync, 0) >= 0
    && Sync(d) < GarbageCollection(d)
  }

  predicate EnforcedOk(d: Dpa) {
    d.nonAdmin.enforced.Some? && d.nonAdmin.enforced.value.Some? ==> d.nonAdmin.enforced.value.value < Sync(d)
  }

  predicate FirstDefault(bs: seq<ClusterBsl>, k: int) {
    0 <= k < |bs| && bs[k].isDefault && forall i :: 0 <= i < k ==> !bs[i].isDefault
  }

  /** The search for the DPA's default reaches `i`: everything before is a Velero location that is not the default. */
  predicate Reaches(ls: seq<Location>, i: int) {
    0 <= i <= |ls| && forall k :: 0 <= k < i ==> ls[k].Velero? && !ls[k].isDefault
  }

  /** Index of the location that stands for a managed default: the one found, else the index in the cluster's list. */
  predicate Picks(ls: seq<Location>, k: int, i: int) {
    || (0 <= i < |ls| && Reaches(ls, i) && ls[i].Velero? && ls[i].isDefault)
    || (Reaches(ls, |ls|) && i == k)
  }

  /** The search meets a location without Velero section, or the index is not usable. */
  predicate Crashes(ls: seq<Location>, k: int) {
    || (exists i :: 0 <= i < |ls| && Reaches(ls, i) && !ls[i].Velero?)
    || (Reaches(ls, |ls|) && k >= |ls|)
  }

  /** The period the default location syncs with. */
  function EffectivePeriod(p: Option<int>, d: Dpa): int {
    OrElse(p, OrElse(d.serverPeriod, VELERO_SYNC))
  }

  method FindDefault(bs: seq<ClusterBsl>) returns (k: int)
    ensures k == -1 || FirstDefault(bs, k)
    ensures k == -1 ==> forall i :: 0 <= i < |bs| ==> !bs[i].isDefault
  {
    k := -1;
    for i := 0 to |bs|
      invariant forall j :: 0 <= j < i ==> !bs[j].isDefault
    {
      if bs[i].isDefault {
        return i;
      }
    }
  }

  /** The inner search; None is the nil dereference or the index out of range. */
  method PickLocation(ls: seq<Location>, k: nat) returns (r: Option<nat>)
    ensures r.None? <==> Crashes(ls, k)
    ensures r.Some? ==> r.value < |ls| && Picks(ls, k, r.value) && ls[r.value].Velero?
  {
    var index := k;
    for i := 0 to |ls|
      invariant Reaches(ls, i)
    {
      if !ls[i].Velero? {
        return None;
      }
      if ls[i].isDefault {
        assert forall j :: 0 <= j < |ls| && Reaches(ls, j) ==> j <= i;
        return Some(i);
      }
    }
    assert forall j :: 0 <= j < |ls| ==> ls[j].Velero?;
    if index >= |ls| {
      return None;
    }
    return Some(index);
  }

  ghost predicate ComparesWith(bs: seq<ClusterBsl>, d: Dpa, p: Option<int>) {
    exists k :: FirstDefault(bs, k) &&
      if bs[k].managed then exists i :: 0 <= i < |d.locations| && Picks(d.locations, k, i) && d.locations[i].Velero? && p == d.locations[i].period
      else p == bs[k].period
  }

  ghost predicate PeriodsAccepted(bs: seq<ClusterBsl>, d: Dpa) {
    && OwnPeriodsOk(d) && EnforcedOk(d)
    && (forall k :: FirstDefault(bs, k) && bs[k].managed ==> !Crashes(d.locations, k))
    && (forall p :: ComparesWith(bs, d, p) ==> EffectivePeriod(p, d) < Sync(d))
  }

  /** The first default location of the cluster is one the operator manages. */
  ghost predicate ManagedDefault(bs: seq<ClusterBsl>) {
    exists k :: FirstDefault(bs, k) && bs[k].managed
  }

  ghost predicate Panics(bs: seq<ClusterBsl>, d: Dpa) {
    OwnPeriodsOk(d) && exists k :: FirstDefault(bs, k) && bs[k].managed && Crashes(d.locations, k)
  }

  /** The period part of `ValidateDataProtectionCR`. */
  method ValidatePeriods(bs: seq<ClusterBsl>, d: Dpa) returns (o: Outcome)
    ensures o == Panic <==> Panics(bs, d)
    ensures o == Accept <==> PeriodsAccepted(bs, d)
  {
    var n := d.nonAdmin;
    if n.garbageCollection.Some? && n.garbageCollection.value < 0 {
      return Reject;
    }
    if n.sync.Some? && n.sync.value < 0 {
      return Reject;
    }
    if GarbageCollection(d) <= Sync(d) {
      return Reject;
    }
    var k := FindDefault(bs);
    if k >= 0 {
      assert forall j :: FirstDefault(bs, j) ==> j == k;
      var period := bs[k].period;
      if bs[k].managed {
        var i := PickLocation(d.locations, k);
        if i.None? {
          return Panic;
        }
        period := d.locations[i.value].period;
        PickIsUnique(d.locations, k, i.value);
      }
      assert ComparesWith(bs, d, period);
      assert forall p :: ComparesWith(bs, d, p) ==> p == period;
      if period.Some? {
        if Sync(d) <= period.value {
          return Reject;
        }
      } else if d.serverPeriod.Some? {
        if Sync(d) <= d.serverPeriod.value {
          return Reject;
        }
      } else if Sync(d) <= VELERO_SYNC {
        return Reject;
      }
      assert EffectivePeriod(period, d) < Sync(d);
    } else {
      assert forall p :: !ComparesWith(bs, d, p);
    }
    if n.enforced.Some? && n.enforced.value.Some? && n.enforced.value.value >= Sync(d) {
      return Reject;
    }
    return Accept;
  }

  lemma PickIsUnique(ls: seq<Location>, k: int, i: int)
    requires 0 <= i < |ls| && Picks(ls, k, i)
    ensures forall j :: 0 <= j < |ls| && Picks(ls, k, j) ==> j == i
  {
  }

  // ---------------------------------------------------------------- main results

  /** The search for the default stops at a CloudStorage location at or before it, or there are no locations at all. */
  ghost predicate Unusable(ls: seq<Location>) {
    ls == [] || exists i, j :: UniqueDefault(ls, i) && 0 <= j <= i && !ls[j].Velero?
  }

  /** On a DPA that passed the checks on defaults, the search for its default crashes exactly in the unusable cases. */
  lemma CrashesExactly(bs: seq<ClusterBsl>, d: Dpa, k: int)
    requires DefaultsValid(d) && FirstDefault(bs, k)
    ensures Crashes(d.locations, k) <==> Unusable(d.locations)
  {
    var ls := d.locations;
    if !d.noDefaultBackupLocation {
      var i :| UniqueDefault(ls, i);
      if Crashes(ls, k) {
        assert !Reaches(ls, |ls|);
        var c :| 0 <= c < |ls| && Reaches(ls, c) && !ls[c].Velero?;
        assert c <= i;
      }
      if Unusable(ls) {
        var i', j :| UniqueDefault(ls, i') && 0 <= j <= i' && !ls[j].Velero?;
        var c := FirstCloud(ls, j);
        assert Reaches(ls, c);
      }
    }
  }

  /**
   On a DPA that passed the checks on defaults, validation panics exactly when its own periods are
   in order and the cluster has a managed default location while the DPA has none, or has a
   CloudStorage location at or before its own default.
   */
  lemma PanicsExactly(bs: seq<ClusterBsl>, d: Dpa)
    requires DefaultsValid(d)
    ensures Panics(bs, d) <==> OwnPeriodsOk(d) && ManagedDefault(bs) && Unusable(d.locations)
  {
    hide Crashes, Unusable, DefaultsValid;
    forall k | FirstDefault(bs, k) ensures Crashes(d.locations, k) <==> Unusable(d.locations) {
      CrashesExactly(bs, d, k);
    }
  }

  /** A DPA in order except that a CloudStorage location stands before its default, and a cluster in which it panics. */
  lemma CloudStoragePanics(period: Option<int>)
    ensures var d := Dpa(false, [CloudStorage("", false), Velero("", true, period)], None, NonAdmin(None, None, None));
      DefaultsValid(d) && Panics([ClusterBsl(true, true, period)], d)
  {
    var d := Dpa(false, [CloudStorage("", false), Velero("", true, period)], None, NonAdmin(None, None, None));
    var bs := [ClusterBsl(true, true, period)];
    assert UniqueDefault(d.locations, 1) && !d.locations[0].Velero?;
    assert Unusable(d.locations);
    assert FirstDefault(bs, 0);
    PanicsExactly(bs, d);
  }

  /** A DPA without locations, and a cluster in which it panics. */
  lemma NoLocationsPanic(period: Option<int>)
    ensures var d := Dpa(true, [], None, NonAdmin(None, None, None));
      DefaultsValid(d) && Panics([ClusterBsl(true, true, period)], d)
  {
    var d := Dpa(true, [], None, NonAdmin(None, None, None));
    var bs := [ClusterBsl(true, true, period)];
    assert FirstDefault(bs, 0);
    PanicsExactly(bs, d);
  }

  lemma {:induction false} FirstCloud(ls: seq<Location>, j: nat) returns (c: nat)
    requires j < |ls| && !ls[j].Velero?
    ensures c <= j && !ls[c].Velero? && forall k :: 0 <= k < c ==> ls[k].Velero?
  {
    c := j;
    if i :| 0 <= i < j && !ls[i].Velero? {
      c := FirstCloud(ls, i);
    }
  }

  /**
   On a DPA with only Velero locations that passed the checks on defaults, the location compared
   with for a managed default is the DPA's unique default.
   */
  lemma PicksTheDefault(d: Dpa, k: int, i: int)
    requires DefaultsValid(d) && !d.noDefaultBackupLocation
    requires forall j :: 0 <= j < |d.locations| ==> d.locations[j].Velero?
    ensures 0 <= i < |d.locations| && Picks(d.locations, k, i) <==> UniqueDefault(d.locations, i)
    ensures !Crashes(d.locations, k)
  {
    var u :| UniqueDefault(d.locations, u);
    assert Reaches(d.locations, u);
    assert !Reaches(d.locations, |d.locations|);
  }

  /**
   The chain, for an accepted DPA with only Velero locations while the cluster has a default
   location: its effective sync period, that of the DPA's own default `u` if the operator manages it,
   is below the non-admin sync period, which is below the garbage collection period.
   */
  lemma AcceptedChain(bs: seq<ClusterBsl>, d: Dpa, k: int, u: int)
    requires PeriodsAccepted(bs, d) && DefaultsValid(d) && FirstDefault(bs, k)
    requires forall j :: 0 <= j < |d.locations| ==> d.locations[j].Velero?
    requires bs[k].managed ==> UniqueDefault(d.locations, u)
    ensures var location := if bs[k].managed then d.locations[u].period else bs[k].period;
      var velero := if location.Some? then location.value else if d.serverPeriod.Some? then d.serverPeriod.value else 60_000_000_000;
      var sync := if d.nonAdmin.sync.Some? then d.nonAdmin.sync.value else 120_000_000_000;
      var collection := if d.nonAdmin.garbageCollection.Some? then d.nonAdmin.garbageCollection.value else 86_400_000_000_000;
      && velero < sync < collection && 0 <= sync
      && (d.nonAdmin.enforced.Some? && d.nonAdmin.enforced.value.Some? ==> d.nonAdmin.enforced.value.value < sync)
  {
    if bs[k].managed {
      PicksTheDefault(d, k, u);
    }
    assert ComparesWith(bs, d, if bs[k].managed then d.locations[u].period else bs[k].period);
  }

  /** The comparisons with their defaults written out, in nanoseconds. */
  lemma PeriodsSpelledOut(d: Dpa, location: Option<int>)
    ensures var sync := if d.nonAdmin.sync.Some? then d.nonAdmin.sync.value else 120_000_000_000;
      var collection := if d.nonAdmin.garbageCollection.Some? then d.nonAdmin.garbageCollection.value else 86_400_000_000_000;
      var velero := if location.Some? then location.value else if d.serverPeriod.Some? then d.serverPeriod.value else 60_000_000_000;
      && (OwnPeriodsOk(d) <==> 0 <= sync < collection)
      && (EffectivePeriod(location, d) < Sync(d) <==> velero < sync)
      && (EnforcedOk(d) <==>
            (d.nonAdmin.enforced.Some? && d.nonAdmin.enforced.value.Some? ==> d.nonAdmin.enforced.value.value < sync))
  {
  }

  /** The case that always panics: no backup locations, but a managed default location left in the cluster. */
  lemma LeftoverDefaultPanics(bs: seq<ClusterBsl>, d: Dpa)
    requires DefaultsValid(d) && d.noDefaultBackupLocation
    ensures Panics(bs, d) <==> OwnPeriodsOk(d) && ManagedDefault(bs)
  {
    PanicsExactly(bs, d);
  }
}
