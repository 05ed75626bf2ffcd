/**
 `ReconcileBackupStorageLocations` and `ReconcileVolumeSnapshotLocations` on the objects of
 the operator's namespace. Creating, patching, listing and deleting may fail at any call.
 */
module LocationReconciler {

  import opened Wrappers
  import opened Locations

  // ---------------------------------------------------------------- the DPA's locations

  /** A CloudStorage location resolves to a spec, or to none when its CR is missing or not an AWS bucket. */
  datatype Backing = Velero(spec: LocationSpec) | CloudStorage(resolved: Option<LocationSpec>)

  datatype Location = Location(name: string, backing: Backing)

  function Digit(d: nat): char
    requires d < 10
  {
    ('0' as int + d) as char
  }

  function Decimal(n: nat): (s: string)
    ensures |s| >= 1
  {
    if n < 10 then [Digit(n)] else Decimal(n / 10) + [Digit(n % 10)]
  }

  lemma {:induction false} DecimalInjective(a: nat, b: nat)
    requires Decimal(a) == Decimal(b)
    ensures a == b
  {
    var s := Decimal(a);
    var last := s[|s| - 1];
    assert last == Digit(a % 10) == Digit(b % 10);
    if a >= 10 && b >= 10 {
      assert Decimal(a / 10) == s[..|s| - 1] == Decimal(b / 10);
      DecimalInjective(a / 10, b / 10);
    } else {
      assert |Decimal(a)| == 1 <==> a < 10;
      assert |Decimal(b)| == 1 <==> b < 10;
    }
  }

  /** The number that a text of digits writes. */
  function NumberOf(s: string): int {
    if s == "" then 0 else 10 * NumberOf(s[..|s| - 1]) + (s[|s| - 1] as int - '0' as int)
  }

  /** `%d` writes the number in digits, without leading zeros. */
  lemma {:induction false} DecimalReads(n: nat)
    ensures NumberOf(Decimal(n)) == n && (forall i :: 0 <= i < |Decimal(n)| ==> '0' <= Decimal(n)[i] <= '9')
    ensures n > 0 ==> Decimal(n)[0] != '0'
  {
    if n >= 10 {
      DecimalReads(n / 10);
      assert Decimal(n)[..|Decimal(n)| - 1] == Decimal(n / 10);
    } else {
      assert Decimal(n)[..0] == "";
    }
  }

  function DefaultName(dpa: string, i: nat): string {
    dpa + "-" + Decimal(i + 1)
  }

  function EffectiveName(dpa: string, i: nat, l: Location): string {
    if l.name != "" then l.name else DefaultName(dpa, i)
  }

  lemma DefaultNamesDiffer(dpa: string, i: nat, j: nat)
    requires DefaultName(dpa, i) == DefaultName(dpa, j)
    ensures i == j
  {
    var p := dpa + "-";
    assert DefaultName(dpa, i)[|p|..] == Decimal(i + 1) && DefaultName(dpa, j)[|p|..] == Decimal(j + 1);
    DecimalInjective(i + 1, j + 1);
  }

  // ---------------------------------------------------------------- patches

  const BSL := "bsl"
  const VSL := "vsl"

  function Selector(component: string): Labels {
    map[NameKey := "oadp-operator-velero", ManagedByKey := "oadp-operator", ComponentKey := component]
  }

  function OwnLabels(component: string, name: string): Labels {
    map[NameKey := "oadp-operator-velero", InstanceKey := name, ManagedByKey := "oadp-operator",
        ComponentKey := component, OadpKey := "True"]
  }

  /** Default ports are stripped from URLs by the AWS SDK; None is its error. */
  type StripPorts = string -> Option<string>

  function Lookup(m: map<string, string>, k: string): string {
    if k in m then m[k] else ""
  }

  function WithStrippedUrl(c: map<string, string>, strip: StripPorts): map<string, string> {
    if Lookup(c, "s3Url") != "" && strip(c["s3Url"]).Some? then c["s3Url" := strip(c["s3Url"]).value] else c
  }

  /** The config a BSL gets: AWS locations with a config never leave the checksum algorithm to Velero's default. */
  function NormalConfig(provider: string, config: Option<map<string, string>>, strip: StripPorts): Option<map<string, string>> {
    if config.None? || provider != "aws" then config
    else
      var c := WithStrippedUrl(config.value, strip);
      Some(if "checksumAlgorithm" in c then c else c["checksumAlgorithm" := ""])
  }

  function RegistryLabel(spec: LocationSpec): string {
    if spec.config.Some? && spec.provider == "azure" && Lookup(spec.config.value, "storageAccountKeyEnvVar") == "" then "False"
    else "True"
  }

  function BslPatch(name: string, b: Backing, strip: StripPorts): Option<Patch> {
    match b
    case Velero(spec) =>
      Some(Patch(false, map[RegistryKey := RegistryLabel(spec)] + OwnLabels(BSL, name),
                 spec.provider, NormalConfig(spec.provider, spec.config, strip), spec.body, Some(spec.extra)))
    case CloudStorage(Some(spec)) =>
      Some(Patch(false, map[], spec.provider, spec.config, spec.body, None))
    case CloudStorage(None) => None
  }

  function VslPatch(name: string, b: Backing): Option<Patch> {
    match b
    case Velero(spec) => Some(Patch(true, OwnLabels(VSL, name), spec.provider, spec.config, spec.body, Some(spec.extra)))
    case CloudStorage(_) => None
  }

  function PatchOf(component: string, name: string, b: Backing, strip: StripPorts): Option<Patch> {
    if component == BSL then BslPatch(name, b, strip) else VslPatch(name, b)
  }

  predicate Resolved(component: string, ls: seq<Location>) {
    forall i :: 0 <= i < |ls| ==> ls[i].backing.Velero? || (component == BSL && ls[i].backing.resolved.Some?)
  }

  function Wants(component: string, dpa: string, ls: seq<Location>, strip: StripPorts): (ws: seq<Wanted>)
    requires Resolved(component, ls)
    ensures |ws| == |ls|
    ensures forall i :: 0 <= i < |ls| ==>
      ws[i] == Wanted(EffectiveName(dpa, i, ls[i]), PatchOf(component, EffectiveName(dpa, i, ls[i]), ls[i].backing, strip).value)
  {
    seq(|ls|, i requires 0 <= i < |ls| =>
      Wanted(EffectiveName(dpa, i, ls[i]), PatchOf(component, EffectiveName(dpa, i, ls[i]), ls[i].backing, strip).value))
  }

  // ---------------------------------------------------------------- instances of the general results

  lemma SelectorIsSet(component: string, name: string)
    ensures Selector(component) != map[] && Matches(Selector(component), OwnLabels(component, name))
    ensures forall v :: Matches(Selector(component), map[RegistryKey := v] + OwnLabels(component, name))
  {
    assert NameKey in Selector(component);
  }

  lemma WantsLabelAllOrNothing(component: string, dpa: string, ls: seq<Location>, strip: StripPorts)
    requires (component == BSL || component == VSL) && Resolved(component, ls)
    ensures LabelsAllOrNothing(Selector(component), Wants(component, dpa, ls, strip))
    ensures forall i :: 0 <= i < |ls| && ls[i].backing.Velero? ==>
      Matches(Selector(component), Wants(component, dpa, ls, strip)[i].patch.labels)
  {
    forall i | 0 <= i < |ls|
      ensures var p := Wants(component, dpa, ls, strip)[i].patch;
        if ls[i].backing.Velero? then Matches(Selector(component), p.labels) else p.labels == map[] && !p.replaceLabels
    {
      SelectorIsSet(component, EffectiveName(dpa, i, ls[i]));
    }
  }

  /**
   The config a backup location ends up with. An AWS one with a config gets the checksum entry,
   keeps the user's value of it, and loses default ports in its URL; everything else is as given.
   */
  predicate IsNormalised(spec: LocationSpec, got: Option<map<string, string>>, strip: StripPorts) {
    if spec.config.None? || spec.provider != "aws" then got == spec.config
    else
      && got.Some?
      && var c, g := spec.config.value, got.value;
      && g.Keys == c.Keys + {"checksumAlgorithm"}
      && g["checksumAlgorithm"] == (if "checksumAlgorithm" in c then c["checksumAlgorithm"] else "")
      && ("s3Url" in c ==>
            g["s3Url"] == if c["s3Url"] != "" && strip(c["s3Url"]).Some? then strip(c["s3Url"]).value else c["s3Url"])
      && forall k :: k in c && k != "s3Url" && k != "checksumAlgorithm" ==> g[k] == c[k]
  }

  lemma NormalisedExactly(spec: LocationSpec, got: Option<map<string, string>>, strip: StripPorts)
    ensures got == NormalConfig(spec.provider, spec.config, strip) <==> IsNormalised(spec, got, strip)
  {
    assert |"s3Url"| != |"checksumAlgorithm"|;
    var normal := NormalConfig(spec.provider, spec.config, strip);
    assert IsNormalised(spec, normal, strip);
    if IsNormalised(spec, got, strip) && spec.config.Some? && spec.provider == "aws" {
      assert got.value.Keys == normal.value.Keys;
      assert forall k :: k in got.value ==> got.value[k] == normal.value[k];
      assert got.value == normal.value;
    }
  }

  /** The operator's labels on an object; the registry is off for Azure locations that name no storage account key. */
  predicate IsLabelled(component: string, name: string, spec: LocationSpec, found: Labels, got: Labels) {
    && NameKey in got && got[NameKey] == "oadp-operator-velero"
    && InstanceKey in got && got[InstanceKey] == name
    && ManagedByKey in got && got[ManagedByKey] == "oadp-operator"
    && ComponentKey in got && got[ComponentKey] == component
    && OadpKey in got && got[OadpKey] == "True"
    && if component == VSL
       then got.Keys == {NameKey, InstanceKey, ManagedByKey, ComponentKey, OadpKey}
       else
         && got.Keys == found.Keys + {NameKey, InstanceKey, ManagedByKey, ComponentKey, OadpKey, RegistryKey}
         && got[RegistryKey] == (if spec.provider == "azure" && spec.config.Some?
                                    && ("storageAccountKeyEnvVar" !in spec.config.value || spec.config.value["storageAccountKeyEnvVar"] == "")
                                 then "False" else "True")
         && forall k :: k in found && k.OtherKey? ==> got[k] == found[k]
  }

  /** Whatever else is in the spec, a location of a distinct name gets exactly its own patch. */
  lemma LocationObject(component: string, dpa: string, ls: seq<Location>, strip: StripPorts, objs: Objects, i: nat)
    requires Resolved(component, ls) && i < |ls| && Distinct(Wants(component, dpa, ls, strip))
    ensures var ws := Wants(component, dpa, ls, strip);
      var n, out := ws[i].name, Pass(Selector(component), ws, objs);
      n in out && out[n] == Apply(ws[i].patch, Found(objs, n))
  {
    var ws := Wants(component, dpa, ls, strip);
    hide Wants, Pass, Apply, Selector, Resolved;
    assert ws[i].name in Names(ws);
    PassProtects(Selector(component), ws, objs, ws[i].name);
    CombinedOfDistinct(ws, i);
  }

  /**
   A Velero location with a distinct name, in either reconciler: its object has the operator's labels,
   the normalised config and otherwise the spec as given.
   */
  lemma VeleroObject(component: string, dpa: string, ls: seq<Location>, strip: StripPorts, objs: Objects, i: nat)
    requires (component == BSL || component == VSL) && Resolved(component, ls)
    requires i < |ls| && ls[i].backing.Velero? && Distinct(Wants(component, dpa, ls, strip))
    ensures var n := if ls[i].name != "" then ls[i].name else dpa + "-" + Decimal(i + 1);
      var spec, out := ls[i].backing.spec, Pass(Selector(component), Wants(component, dpa, ls, strip), objs);
      && n in out && IsLabelled(component, n, spec, Found(objs, n).labels, out[n].labels)
      && out[n].spec == spec.(config := out[n].spec.config)
      && if component == BSL then IsNormalised(spec, out[n].spec.config, strip) else out[n].spec.config == spec.config
  {
    var n, spec := EffectiveName(dpa, i, ls[i]), ls[i].backing.spec;
    assert BSL != VSL by { assert BSL[0] == 'b' && VSL[0] == 'v'; }
    LocationObject(component, dpa, ls, strip, objs, i);
    NormalisedExactly(spec, NormalConfig(spec.provider, spec.config, strip), strip);
    LabelsOfPatch(component, n, spec, strip, Found(objs, n));
    hide Pass, NormalConfig, IsNormalised, IsLabelled, Resolved, OwnLabels;
  }

  lemma LabelsOfPatch(component: string, n: string, spec: LocationSpec, strip: StripPorts, found: Object)
    requires component == BSL || component == VSL
    ensures IsLabelled(component, n, spec, found.labels, Apply(PatchOf(component, n, Velero(spec), strip).value, found).labels)
  {
    hide NormalConfig, IsLabelled;
    if component == BSL {
      BslLabels(n, spec, found.labels);
    } else {
      VslLabels(n, spec, found.labels);
    }
  }

  lemma BslLabels(n: string, spec: LocationSpec, found: Labels)
    ensures IsLabelled(BSL, n, spec, found, found + (map[RegistryKey := RegistryLabel(spec)] + OwnLabels(BSL, n)))
  {
    assert BSL[0] == 'b' && VSL[0] == 'v';
    var got := found + (map[RegistryKey := RegistryLabel(spec)] + OwnLabels(BSL, n));
    assert got.Keys == found.Keys + {NameKey, InstanceKey, ManagedByKey, ComponentKey, OadpKey, RegistryKey};
  }

  lemma VslLabels(n: string, spec: LocationSpec, found: Labels)
    ensures IsLabelled(VSL, n, spec, found, OwnLabels(VSL, n))
  {
  }

  /** A CloudStorage location sets provider, config and bucket of its object and leaves labels and the rest alone. */
  lemma CloudStorageObject(dpa: string, ls: seq<Location>, strip: StripPorts, objs: Objects, i: nat)
    requires Resolved(BSL, ls) && i < |ls| && ls[i].backing.CloudStorage? && Distinct(Wants(BSL, dpa, ls, strip))
    ensures var n := if ls[i].name != "" then ls[i].name else dpa + "-" + Decimal(i + 1);
      var spec, out := ls[i].backing.resolved.value, Pass(Selector(BSL), Wants(BSL, dpa, ls, strip), objs);
      && n in out && out[n].labels == Found(objs, n).labels
      && out[n].spec == LocationSpec(spec.provider, spec.config, spec.body, Found(objs, n).spec.extra)
  {
    LocationObject(BSL, dpa, ls, strip, objs, i);
    var n := EffectiveName(dpa, i, ls[i]);
    assert Found(objs, n).labels + map[] == Found(objs, n).labels;
    hide Pass;
  }

  /**
   Distinct effective names and Velero-backed locations only: after a pass, from any state, the
   labelled objects are exactly the desired ones with their normalised specs, and everything else
   that was not labelled is as before.
   */
  lemma LocationsConverge(component: string, dpa: string, ls: seq<Location>, strip: StripPorts, objs: Objects)
    requires component == BSL || component == VSL
    requires forall i :: 0 <= i < |ls| ==> ls[i].backing.Velero?
    requires Distinct(Wants(component, dpa, ls, strip))
    ensures var ws := Wants(component, dpa, ls, strip);
      var out := Pass(Selector(component), ws, objs);
      && Labelled(Selector(component), out) == Names(ws)
      && (forall i :: 0 <= i < |ls| ==>
            var n := if ls[i].name != "" then ls[i].name else dpa + "-" + Decimal(i + 1);
            var spec := ls[i].backing.spec;
            && n in out && out[n].spec == spec.(config := out[n].spec.config)
            && if component == BSL then IsNormalised(spec, out[n].spec.config, strip) else out[n].spec.config == spec.config)
      && (forall n :: n in objs && n !in Names(ws) && n !in Labelled(Selector(component), objs) ==> n in out && out[n] == objs[n])
  {
    var ws := Wants(component, dpa, ls, strip);
    WantsLabelAllOrNothing(component, dpa, ls, strip);
    SelectorIsSet(component, dpa);
    forall i | 0 <= i < |ls|
      ensures var n := if ls[i].name != "" then ls[i].name else dpa + "-" + Decimal(i + 1);
        var spec, out := ls[i].backing.spec, Pass(Selector(component), ws, objs);
        && n in out && out[n].spec == spec.(config := out[n].spec.config)
        && if component == BSL then IsNormalised(spec, out[n].spec.config, strip) else out[n].spec.config == spec.config
    {
      VeleroObject(component, dpa, ls, strip, objs, i);
    }
    hide Matches, Selector, OwnLabels, Pass, IsNormalised;
    PassConverges(Selector(component), ws, objs);
    forall n | n in objs && n !in Names(ws) && n !in Labelled(Selector(component), objs)
      ensures n in Pass(Selector(component), ws, objs) && Pass(Selector(component), ws, objs)[n] == objs[n]
    {
      PassProtects(Selector(component), ws, objs, n);
    }
  }

  /** Effective names collide only through names given in the spec. */
  lemma DistinctExactly(component: string, dpa: string, ls: seq<Location>, strip: StripPorts)
    requires Resolved(component, ls)
    ensures Distinct(Wants(component, dpa, ls, strip))
      <==> forall i, j :: 0 <= i < |ls| && 0 <= j < |ls| && i != j && ls[i].name != "" ==> ls[i].name != EffectiveName(dpa, j, ls[j])
  {
    var ws := Wants(component, dpa, ls, strip);
    if forall i, j :: 0 <= i < |ls| && 0 <= j < |ls| && i != j && ls[i].name != "" ==> ls[i].name != EffectiveName(dpa, j, ls[j]) {
      forall i, j | 0 <= i < j < |ls| ensures ws[i].name != ws[j].name {
        if ls[i].name == "" && ls[j].name == "" && DefaultName(dpa, i) == DefaultName(dpa, j) {
          DefaultNamesDiffer(dpa, i, j);
        }
      }
    }
    if Distinct(ws) {
      forall i, j | 0 <= i < |ls| && 0 <= j < |ls| && i != j && ls[i].name != ""
        ensures ls[i].name != EffectiveName(dpa, j, ls[j])
      {
        assert ws[i].name == ls[i].name && ws[j].name == EffectiveName(dpa, j, ls[j]);
      }
    }
  }

  // ---------------------------------------------------------------- stale objects that stay

  /** Two locations of the same name hide a stale object from either reconciler. */
  lemma DuplicateNamesHideStale(component: string, dpa: string, name: string, first: LocationSpec, second: LocationSpec,
                                strip: StripPorts, old_: string, o: Object)
    requires component == BSL || component == VSL
    requires name != "" && name != old_ && Matches(Selector(component), o.labels)
    ensures var ws := Wants(component, dpa, [Location(name, Velero(first)), Location(name, Velero(second))], strip);
      Stale(Selector(component), ws, Pass(Selector(component), ws, map[old_ := o])) == {old_}
  {
    var sel, ls := Selector(component), [Location(name, Velero(first)), Location(name, Velero(second))];
    var ws := Wants(component, dpa, ls, strip);
    WantsLabelAllOrNothing(component, dpa, ls, strip);
    SelectorIsSet(component, dpa);
    assert ws[0].name == name && ws[1].name == name;
    hide Wants, Matches, Selector, Pass, Stale, LabelsAllOrNothing;
    SharedNameHides(sel, ws, name, old_, o);
  }

  /** A CloudStorage location, whose object never gets the labels, hides a stale object. */
  lemma UnlabelledHidesStale(dpa: string, name: string, spec: LocationSpec, strip: StripPorts, old_: string, o: Object)
    requires EffectiveName(dpa, 0, Location(name, CloudStorage(Some(spec)))) != old_ && Matches(Selector(BSL), o.labels)
    ensures var ws := Wants(BSL, dpa, [Location(name, CloudStorage(Some(spec)))], strip);
      Stale(Selector(BSL), ws, Pass(Selector(BSL), ws, map[old_ := o])) == {old_}
  {
    var sel, ls := Selector(BSL), [Location(name, CloudStorage(Some(spec)))];
    var ws := Wants(BSL, dpa, ls, strip);
    var n := EffectiveName(dpa, 0, ls[0]);
    WantsLabelAllOrNothing(BSL, dpa, ls, strip);
    SelectorIsSet(BSL, dpa);
    assert ws[0].name == n && ws[0].patch.labels == map[];
    assert NameKey in sel;
    hide Wants, Selector, Pass, Stale, LabelsAllOrNothing, EffectiveName;
    MissingLabelsHide(sel, ws, old_, o);
  }

  // ---------------------------------------------------------------- the reconciler

  predicate IsDesired(dpa: string, ls: seq<Location>, n: string) {
    exists i :: 0 <= i < |ls| && n == EffectiveName(dpa, i, ls[i])
  }

  /** What a pass does to a location of the DPA in memory: a BSL's config is normalised in place. */
  function InMemory(component: string, l: Location, strip: StripPorts): Location {
    if component != BSL || !l.backing.Velero? then l
    else
      var spec := l.backing.spec;
      l.(backing := Velero(spec.(config := NormalConfig(spec.provider, spec.config, strip))))
  }

  /** Of the locations `ls`, the first `n` have been through a pass in memory. */
  predicate PassedInMemory(component: string, ls: seq<Location>, now: seq<Location>, strip: StripPorts, n: nat) {
    && |now| == |ls|
    && forall k :: 0 <= k < |ls| ==> now[k] == if k < n then InMemory(component, ls[k], strip) else ls[k]
  }

  lemma OneMoreInMemory(component: string, ls: seq<Location>, now: seq<Location>, strip: StripPorts, n: nat)
    requires PassedInMemory(component, ls, now, strip, n) && n < |ls|
    ensures PassedInMemory(component, ls, now[n := InMemory(component, now[n], strip)], strip, n + 1)
  {
    hide InMemory;
  }

  function WithEntry(l: Location, key: string, value: string): Location
    requires l.backing.Velero? && l.backing.spec.config.Some?
  {
    var spec := l.backing.spec;
    l.(backing := Velero(spec.(config := Some(spec.config.value[key := value]))))
  }

  lemma NothingPassed(component: string, ls: seq<Location>, strip: StripPorts)
    ensures PassedInMemory(component, ls, ls, strip, 0)
  {
  }

  /** The objects of the namespace and the locations of the DPA that the operator holds in memory. */
  class Cluster {
    var objs: Objects
    var locations: seq<Location>

    constructor (objs: Objects, locations: seq<Location>)
      ensures this.objs == objs && this.locations == locations
    {
      this.objs, this.locations := objs, locations;
    }

    /** A write to the config map of a location, which the spec handed on shares with the DPA. */
    method SetConfig(i: nat, key: string, value: string)
      requires i < |locations| && locations[i].backing.Velero? && locations[i].backing.spec.config.Some?
      modifies this`locations
      ensures locations == old(locations)[i := WithEntry(old(locations)[i], key, value)]
    {
      var spec := locations[i].backing.spec;
      var config := spec.config.value[key := value];
      locations := locations[i := locations[i].(backing := Velero(spec.(config := Some(config))))];
    }

    /** The part of `UpdateBackupStorageLocation` that writes to the config. */
    method NormaliseConfig(i: nat, strip: StripPorts)
      requires i < |locations| && locations[i].backing.Velero?
      modifies this`locations
      ensures locations == old(locations)[i := InMemory(BSL, old(locations)[i], strip)]
    {
      var spec := locations[i].backing.spec;
      if spec.config.Some? && spec.provider == "aws" {
        var c := spec.config.value;
        if "s3Url" in c && |c["s3Url"]| > 0 {
          var url := strip(c["s3Url"]);
          if url.Some? {
            SetConfig(i, "s3Url", url.value);
          }
        }
        assert locations[i].backing.spec.config == Some(WithStrippedUrl(c, strip));
        if "checksumAlgorithm" !in locations[i].backing.spec.config.value {
          SetConfig(i, "checksumAlgorithm", "");
        }
      }
    }

    /** `updateBSLFromSpec`: labels one by one, config normalised, spec assigned. */
    method UpdateBslFromSpec(found: Object, name: string, i: nat, strip: StripPorts) returns (o: Object)
      requires i < |locations| && locations[i].backing.Velero?
      modifies this`locations
      ensures o == Apply(BslPatch(name, old(locations)[i].backing, strip).value, found)
      ensures locations == old(locations)[i := InMemory(BSL, old(locations)[i], strip)]
    {
      var spec := locations[i].backing.spec;
      var labels := found.labels;
      labels := labels[RegistryKey := "True"];
      if spec.config.Some? && spec.provider == "azure" && Lookup(spec.config.value, "storageAccountKeyEnvVar") == "" {
        labels := labels[RegistryKey := "False"];
      }
      NormaliseConfig(i, strip);
      hide NormalConfig;
      labels := labels[NameKey := "oadp-operator-velero"];
      labels := labels[InstanceKey := name];
      labels := labels[ManagedByKey := "oadp-operator"];
      labels := labels[ComponentKey := "bsl"];
      labels := labels[OadpKey := "True"];
      assert labels == found.labels + (map[RegistryKey := RegistryLabel(spec)] + OwnLabels(BSL, name));
      o := Object(labels, locations[i].backing.spec);
    }

    /** The mutation a create-or-patch makes to the object it found or creates. */
    method UpdateObject(component: string, found: Object, name: string, i: nat, strip: StripPorts) returns (r: Option<Object>)
      requires i < |locations| && (component == BSL || (component == VSL && locations[i].backing.Velero?))
      modifies this`locations
      ensures r == match PatchOf(component, name, old(locations)[i].backing, strip)
                   case None => None
                   case Some(p) => Some(Apply(p, found))
      ensures locations == old(locations)[i := InMemory(component, old(locations)[i], strip)]
    {
      match locations[i].backing {
        case Velero(spec) =>
          var o;
          if component == BSL {
            o := UpdateBslFromSpec(found, name, i, strip);
          } else {
            o := found.(labels := OwnLabels(VSL, name));
            o := o.(spec := spec);
          }
          return Some(o);
        case CloudStorage(resolved) =>
          if resolved.None? {
            return None;
          }
          var spec := found.spec;
          spec := spec.(body := resolved.value.body);
          spec := spec.(config := resolved.value.config);
          spec := spec.(provider := resolved.value.provider);
          assert found.labels + map[] == found.labels;
          return Some(Object(found.labels, spec));
      }
    }

    /** The loop over the DPA's locations. It stops at the first location that cannot be applied. */
    method ApplyLocations(component: string, dpa: string, strip: StripPorts)
      returns (ok: bool, names: seq<string>, ghost done: nat)
      requires component == BSL || (component == VSL && forall i :: 0 <= i < |locations| ==> locations[i].backing.Velero?)
      modifies this
      ensures |names| <= |old(locations)| && forall i :: 0 <= i < |names| ==> names[i] == EffectiveName(dpa, i, old(locations)[i])
      ensures ok ==> && |names| == |old(locations)| && Resolved(component, old(locations))
                     && objs == ApplyAll(Wants(component, dpa, old(locations), strip), old(objs))
      ensures PassedInMemory(component, old(locations), locations, strip, done) && done <= |old(locations)|
      ensures ok ==> done == |old(locations)|
      ensures forall n :: n in old(objs) ==> n in objs && (n !in names ==> objs[n] == old(objs)[n])
    {
      hide EffectiveName, PatchOf, Apply, Wants, Found, InMemory, PassedInMemory;
      ghost var ls := locations;
      names, done := [], 0;
      assert PassedInMemory(component, ls, locations, strip, 0) by { NothingPassed(component, ls, strip); }
      var i := 0;
      assert ApplyAll([], objs) == objs;
      while i < |locations|
        invariant 0 <= i <= |ls| && |names| == i && done == i && |locations| == |ls|
        invariant PassedInMemory(component, ls, locations, strip, i) && locations[i..] == ls[i..]
        invariant forall k :: 0 <= k < i ==> names[k] == EffectiveName(dpa, k, ls[k])
        invariant Resolved(component, ls[..i])
        invariant objs == ApplyAll(Wants(component, dpa, ls[..i], strip), old(objs))
        decreases |ls| - i
      {
        hide Resolved, ApplyAll;
        assert locations[i] == locations[i..][0] == ls[i];
        OneMoreInMemory(component, ls, locations, strip, i);
        var name := EffectiveName(dpa, i, locations[i]);
        names := names + [name];
        WantsFrame(component, dpa, ls[..i], strip, old(objs), names);
        var failed: bool := *;
        if failed {
          return false, names, done;
        }
        var o := UpdateObject(component, Found(objs, name), name, i, strip);
        done := i + 1;
        assert locations[i + 1..] == ls[i..][1..] == ls[i + 1..];
        if o.None? {
          return false, names, done;
        }
        var applied: bool := *;
        failed := *;
        if failed {
          if applied {
            objs := objs[name := o.value];
          }
          return false, names, done;
        }
        WantsPrefix(component, dpa, ls, strip, i, old(objs));
        objs := objs[name := o.value];
        i := i + 1;
      }
      assert ls[..|ls|] == ls;
      WantsFrame(component, dpa, ls, strip, old(objs), names);
      return true, names, done;
    }

    /** The guarded prune loop over the listed objects. */
    method PruneExtra(component: string, names: seq<string>, ghost ws: seq<Wanted>) returns (ok: bool)
      requires |names| == |ws| && forall i :: 0 <= i < |ws| ==> names[i] == ws[i].name
      modifies this`objs
      ensures ok ==> objs == Prune(Selector(component), ws, old(objs))
      ensures objs.Keys <= old(objs).Keys && forall n :: n in objs ==> objs[n] == old(objs)[n]
      ensures forall n :: n in old(objs) && (n in names || n !in Labelled(Selector(component), old(objs))) ==> n in objs
    {
      var listed := Labelled(Selector(component), objs);
      var failed: bool := *;
      if failed {
        return false;
      }
      assert forall n :: n in names <==> n in Names(ws);
      if |names| == |listed| {
        return true;
      }
      var todo := listed;
      while todo != {}
        invariant todo <= listed
        invariant objs == old(objs) - (listed - todo - Names(ws))
        decreases |todo|
      {
        var n :| n in todo;
        if n !in names {
          failed := *;
          if failed {
            return false;
          }
          objs := objs - {n};
        }
        todo := todo - {n};
      }
      assert listed - {} - Names(ws) == Stale(Selector(component), ws, old(objs));
      return true;
    }

    /**
     The whole reconcile. Success is one pass; on failure, too, no desired or unlabelled object is
     deleted and no object outside the spec is changed.
     */
    method Reconcile(component: string, dpa: string, strip: StripPorts) returns (ok: bool, ghost done: nat)
      requires component == BSL || (component == VSL && forall i :: 0 <= i < |locations| ==> locations[i].backing.Velero?)
      modifies this
      ensures ok ==> && Resolved(component, old(locations))
                     && objs == Pass(Selector(component), Wants(component, dpa, old(locations), strip), old(objs))
      ensures PassedInMemory(component, old(locations), locations, strip, done) && done <= |old(locations)|
      ensures ok ==> done == |old(locations)|
      ensures forall n :: n in old(objs) && n !in Labelled(Selector(component), old(objs)) ==> n in objs
      ensures forall n :: n in old(objs) && n in objs && !IsDesired(dpa, old(locations), n) ==> objs[n] == old(objs)[n]
      ensures forall n :: n in old(objs) && IsDesired(dpa, old(locations), n) ==> n in objs
    {
      hide PassedInMemory;
      ghost var ls := locations;
      var names;
      ok, names, done := ApplyLocations(component, dpa, strip);
      if !ok {
        return;
      }
      assert forall n :: n in old(objs) && n !in names ==> objs[n] == old(objs)[n];
      ok := PruneExtra(component, names, Wants(component, dpa, ls, strip));
    }
  }

  lemma WantsFrame(component: string, dpa: string, ls: seq<Location>, strip: StripPorts, objs: Objects, names: seq<string>)
    requires Resolved(component, ls) && |ls| <= |names|
    requires forall k :: 0 <= k < |ls| ==> names[k] == EffectiveName(dpa, k, ls[k])
    ensures var out := ApplyAll(Wants(component, dpa, ls, strip), objs);
      forall n :: n in objs ==> n in out && (n !in names ==> out[n] == objs[n])
  {
    hide PatchOf, EffectiveName, ApplyAll;
    ApplyAllFrame(Wants(component, dpa, ls, strip), objs);
    assert forall n :: n in Names(Wants(component, dpa, ls, strip)) ==> n in names;
  }

  /** Taking one more location appends one wanted object. */
  lemma WantsPrefix(component: string, dpa: string, ls: seq<Location>, strip: StripPorts, i: nat, objs: Objects)
    requires i < |ls| && Resolved(component, ls[..i])
    requires PatchOf(component, EffectiveName(dpa, i, ls[i]), ls[i].backing, strip).Some?
    ensures Resolved(component, ls[..i + 1])
    ensures var n := EffectiveName(dpa, i, ls[i]);
      var before := ApplyAll(Wants(component, dpa, ls[..i], strip), objs);
      ApplyAll(Wants(component, dpa, ls[..i + 1], strip), objs)
      == before[n := Apply(PatchOf(component, n, ls[i].backing, strip).value, Found(before, n))]
  {
    assert forall k :: 0 <= k < i ==> ls[..i + 1][k] == ls[..i][k];
    assert ls[..i + 1][i] == ls[i];
    assert Resolved(component, ls[..i + 1]);
    hide PatchOf, EffectiveName;
    var w := Wanted(EffectiveName(dpa, i, ls[i]), PatchOf(component, EffectiveName(dpa, i, ls[i]), ls[i].backing, strip).value);
    var ws := Wants(component, dpa, ls[..i + 1], strip);
    assert ws[i] == w;
    assert ws[..i] == Wants(component, dpa, ls[..i], strip);
  }
}
