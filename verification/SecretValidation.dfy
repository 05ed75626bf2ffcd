/**
 Which secrets exist when a DPA passes validation, and whether they are the ones that are
 mounted later.
 */
module SecretValidation {

  import opened Wrappers
  import opened CredentialDemand
  import opened DefaultSecrets

  /** The secrets of the namespace, each with the keys that hold data; no secret has an empty name. */
  type Secrets = s: map<string, set<string>> | "" !in s

  /** Plugin name as a string, as locations name their provider. */
  function PluginName(p: Plugin): string {
    match p
    case Aws => "aws"
    case LegacyAws => "legacy-aws"
    case Gcp => "gcp"
    case Azure => "azure"
    case OpenShift => "openshift"
    case KubeVirt => "kubevirt"
    case Hypershift => "hypershift"
    case Csi => "csi"
    case Vsm => "vsm"
  }

  function DefaultSecret(provider: string): string {
    if provider == "aws" || provider == "legacy-aws" then "cloud-credentials"
    else if provider == "gcp" then "cloud-credentials-gcp"
    else if provider == "azure" then "cloud-credentials-azure"
    else ""
  }

  // ---------------------------------------------------------------- backup and snapshot locations

  /** `getSecretNameAndKey`: an error, a name taken from the credentials file, or a name and key whose content is verified. */
  datatype SecretRef = BadRef | Unverified(name: string) | Verified(name: string, key: string)

  function SecretOf(v: VeleroLocation): SecretRef {
    match v.file
    case BlankFile => Unverified("")
    case FileRef(name) => Unverified(name)
    case _ =>
      match v.credential
      case None => Verified(DefaultSecret(v.provider), "cloud")
      case Some(c) => if c.name == "" || c.key == "" then BadRef else Verified(c.name, c.key)
  }

  predicate HasContent(ss: Secrets, name: string, key: string) {
    name in ss && key in ss[name]
  }

  /** The secret checks on a backup location (`ensureSecretDataExists`), when secrets are checked at all. */
  predicate BackupOk(b: BackupLocation, ss: Secrets) {
    if b.cloud.Some? then
      var c := b.cloud.value;
      && b.velero.None? && c.credential.Some? && c.credential.value.name != "" && c.credential.value.key != ""
      && HasContent(ss, c.credential.value.name, c.credential.value.key) && (c.hasRefName ==> c.refProvider.Some?)
    else
      && b.velero.Some?
      && match SecretOf(b.velero.value)
         case BadRef => false
         case Unverified(n) => n in ss
         case Verified(n, k) => HasContent(ss, n, k)
  }

  /** Which secret a Velero location needs, case by case: a credentials file, a credential, or the provider's default. */
  lemma LocationSecretIs(v: VeleroLocation, ss: Secrets)
    ensures var ok := BackupOk(BackupLocation(Some(v), None), ss);
      && (v.file.FileRef? ==> (ok <==> v.file.name in ss))
      && (v.file.BlankFile? ==> !ok)
      && ((v.file.NoFile? || v.file.BadFile?) ==>
            if v.credential.Some? then
              var c := v.credential.value;
              ok <==> c.name != "" && c.key != "" && c.name in ss && c.key in ss[c.name]
            else if v.provider == "aws" || v.provider == "legacy-aws" then
              ok <==> "cloud-credentials" in ss && "cloud" in ss["cloud-credentials"]
            else if v.provider == "gcp" then ok <==> "cloud-credentials-gcp" in ss && "cloud" in ss["cloud-credentials-gcp"]
            else if v.provider == "azure" then ok <==> "cloud-credentials-azure" in ss && "cloud" in ss["cloud-credentials-azure"]
            else !ok)
  {
  }

  /** `ensureVslSecretDataExists`. */
  predicate SnapshotOk(s: SnapshotLocation, ss: Secrets) {
    && s.velero.Some?
    && (s.velero.value.credential.Some? ==> s.velero.value.credential.value.name != "" && s.velero.value.credential.value.key != "")
    && (s.velero.value.file.NoFile? ==>
          match SecretOf(s.velero.value)
          case BadRef => false
          case Unverified(_) => true
          case Verified(n, k) => HasContent(ss, n, k))
  }

  // ---------------------------------------------------------------- plugins

  /** The secret a location of the plugin's provider asks the plugin check to look up. */
  predicate PluginLooksUp(v: VeleroLocation, p: Plugin, n: string) {
    && Provider(v) == PluginName(p) && Table(p).Some?
    && n == if v.credential.Some? then v.credential.value.name else Table(p).value.secret
  }

  predicate BackupNames(bs: seq<BackupLocation>, p: Plugin, n: string) {
    exists b :: b in bs && b.velero.Some? && PluginLooksUp(b.velero.value, p, n)
  }

  predicate SnapshotNames(ss: seq<SnapshotLocation>, p: Plugin, n: string) {
    exists s :: s in ss && s.velero.Some? && PluginLooksUp(s.velero.value, p, n)
  }

  predicate PluginNames(d: Dpa, p: Plugin, n: string) {
    BackupNames(d.backups, p, n) || SnapshotNames(d.snapshots, p, n)
  }

  lemma BackupNamesSnoc(bs: seq<BackupLocation>, b: BackupLocation, p: Plugin, n: string)
    ensures BackupNames(bs + [b], p, n) <==> BackupNames(bs, p, n) || (b.velero.Some? && PluginLooksUp(b.velero.value, p, n))
  {
    hide PluginLooksUp;
    assert forall x :: x in bs + [b] <==> x in bs || x == b;
  }

  lemma SnapshotNamesSnoc(ss: seq<SnapshotLocation>, s: SnapshotLocation, p: Plugin, n: string)
    ensures SnapshotNames(ss + [s], p, n) <==> SnapshotNames(ss, p, n) || (s.velero.Some? && PluginLooksUp(s.velero.value, p, n))
  {
    hide PluginLooksUp;
    assert forall x :: x in ss + [s] <==> x in ss || x == s;
  }

  /** The name one location adds to those collected. */
  method WithName(v: Option<VeleroLocation>, p: Plugin, from: set<string>) returns (names: set<string>)
    requires IsCloud(p)
    ensures forall n :: n in names <==> n in from || (v.Some? && PluginLooksUp(v.value, p, n))
  {
    hide Provider, PluginName;
    names := from;
    if v.Some? && Provider(v.value) == PluginName(p) {
      var n := if v.value.credential.Some? then v.value.credential.value.name else Table(p).value.secret;
      names := names + {n};
    }
  }

  predicate PluginChecked(d: Dpa, p: Plugin) {
    IsCloud(p) && Relies(d, Table(p).value.provider) && !d.noDefaultBackupLocation && !d.noSecret
  }

  ghost predicate PluginOk(d: Dpa, p: Plugin, ss: Secrets) {
    p != Vsm && (PluginChecked(d, p) ==> forall n :: PluginNames(d, p, n) ==> n in ss)
  }

  /** The names the plugin loop collects for one plugin. */
  method NamesToValidate(d: Dpa, p: Plugin) returns (names: set<string>)
    requires IsCloud(p)
    ensures forall n :: n in names <==> PluginNames(d, p, n)
  {
    hide PluginLooksUp, BackupNames, SnapshotNames;
    names := {};
    var i := 0;
    assert forall n :: !BackupNames([], p, n) && !SnapshotNames([], p, n) by { NoNames(p); }
    while i < |d.backups|
      invariant 0 <= i <= |d.backups|
      invariant forall n :: n in names <==> BackupNames(d.backups[..i], p, n)
    {
      assert d.backups[..i + 1] == d.backups[..i] + [d.backups[i]];
      forall n {
        BackupNamesSnoc(d.backups[..i], d.backups[i], p, n);
      }
      names := WithName(d.backups[i].velero, p, names);
      i := i + 1;
    }
    assert d.backups[..|d.backups|] == d.backups;
    i := 0;
    while i < |d.snapshots|
      invariant 0 <= i <= |d.snapshots|
      invariant forall n :: n in names <==> BackupNames(d.backups, p, n) || SnapshotNames(d.snapshots[..i], p, n)
    {
      assert d.snapshots[..i + 1] == d.snapshots[..i] + [d.snapshots[i]];
      forall n {
        SnapshotNamesSnoc(d.snapshots[..i], d.snapshots[i], p, n);
      }
      names := WithName(d.snapshots[i].velero, p, names);
      i := i + 1;
    }
    assert d.snapshots[..|d.snapshots|] == d.snapshots;
  }

  lemma NoNames(p: Plugin)
    ensures forall n :: !BackupNames([], p, n) && !SnapshotNames([], p, n)
  {
  }

  ghost predicate PluginsOk(d: Dpa, ss: Secrets) {
    && Decidable(d)
    && (forall p :: p in d.plugins ==> PluginOk(d, p, ss))
    && !(Aws in d.plugins && LegacyAws in d.plugins)
  }

  /** `ValidateVeleroPlugins`. */
  method ValidateVeleroPlugins(d: Dpa, ss: Secrets) returns (ok: bool)
    ensures ok <==> PluginsOk(d, ss)
  {
    hide PluginNames, PluginLooksUp, Relies, Mentions;
    var demand := NoDefaultCredentials(d);
    if demand.None? {
      return false;
    }
    var foundAws, foundLegacyAws := false, false;
    var i := 0;
    while i < |d.plugins|
      invariant 0 <= i <= |d.plugins|
      invariant forall p :: p in d.plugins[..i] ==> PluginOk(d, p, ss)
      invariant foundAws <==> Aws in d.plugins[..i]
      invariant foundLegacyAws <==> LegacyAws in d.plugins[..i]
    {
      var p := d.plugins[i];
      assert d.plugins[..i + 1] == d.plugins[..i] + [p];
      if p == Aws {
        foundAws := true;
      }
      if p == LegacyAws {
        foundLegacyAws := true;
      }
      if p == Vsm {
        assert p in d.plugins && !PluginOk(d, p, ss);
        return false;
      }
      if IsCloud(p) && Needed(demand.value, Table(p).value.provider) && !d.noDefaultBackupLocation && !d.noSecret {
        DemandTells(d, demand.value, Table(p).value.provider);
        var names := NamesToValidate(d, p);
        if exists n :: n in names && n !in ss {
          var n :| n in names && n !in ss;
          assert PluginNames(d, p, n);
          assert p in d.plugins && !PluginOk(d, p, ss);
          return false;
        }
      } else if IsCloud(p) {
        DemandTells(d, demand.value, Table(p).value.provider);
      }
      assert PluginOk(d, p, ss);
      i := i + 1;
    }
    assert d.plugins[..|d.plugins|] == d.plugins;
    return !(foundAws && foundLegacyAws);
  }

  // ---------------------------------------------------------------- accepted DPAs

  /** All secret checks of validation pass. */
  ghost predicate Accepted(d: Dpa, ss: Secrets) {
    && (d.noSecret || forall b :: b in d.backups ==> BackupOk(b, ss))
    && (d.noSecret || forall s :: s in d.snapshots ==> SnapshotOk(s, ss))
    && PluginsOk(d, ss)
  }

  /** Validation looks up a secret of this name. */
  predicate BackupLooksUp(b: BackupLocation, n: string) {
    if b.cloud.Some? then b.cloud.value.credential.Some? && b.cloud.value.credential.value.name == n
    else b.velero.Some? && !SecretOf(b.velero.value).BadRef? && SecretOf(b.velero.value).name == n
  }

  predicate SnapshotLooksUp(s: SnapshotLocation, n: string) {
    s.velero.Some? && s.velero.value.file.NoFile? && SecretOf(s.velero.value).Verified? && SecretOf(s.velero.value).name == n
  }

  predicate LooksUp(d: Dpa, n: string) {
    || (!d.noSecret && exists b :: b in d.backups && BackupLooksUp(b, n))
    || (!d.noSecret && exists s :: s in d.snapshots && SnapshotLooksUp(s, n))
    || (exists p :: p in d.plugins && PluginChecked(d, p) && PluginNames(d, p, n))
  }

  /** What validation looks up exists when the DPA is accepted. */
  lemma LookedUpExists(d: Dpa, ss: Secrets, n: string)
    requires Accepted(d, ss) && LooksUp(d, n)
    ensures n in ss
  {
    if !d.noSecret {
      if b :| b in d.backups && BackupLooksUp(b, n) {
        assert BackupOk(b, ss);
      }
      if s :| s in d.snapshots && SnapshotLooksUp(s, n) {
        assert SnapshotOk(s, ss);
      }
    }
    if p :| p in d.plugins && PluginChecked(d, p) && PluginNames(d, p, n) {
      hide PluginNames, PluginChecked;
      assert PluginOk(d, p, ss);
    }
  }

  /** What it does not look up could as well be missing. */
  lemma OthersDoNotMatter(d: Dpa, ss: Secrets, n: string)
    requires Accepted(d, ss) && !LooksUp(d, n)
    ensures Accepted(d, ss - {n})
  {
    var less: Secrets := ss - {n};
    if !d.noSecret {
      forall b | b in d.backups ensures BackupOk(b, less) {
        assert BackupOk(b, ss) && !BackupLooksUp(b, n);
      }
      forall s | s in d.snapshots ensures SnapshotOk(s, less) {
        assert SnapshotOk(s, ss) && !SnapshotLooksUp(s, n);
      }
    }
    forall p | p in d.plugins ensures PluginOk(d, p, less) {
      assert PluginOk(d, p, ss);
      hide PluginNames, PluginChecked;
    }
  }

  /**
   Acceptance guarantees that a secret exists -- in every cluster that accepts the DPA -- exactly if
   validation looks it up.
   */
  lemma GuaranteedExactly(d: Dpa, ss: Secrets, n: string)
    requires Accepted(d, ss)
    ensures LooksUp(d, n) <==> forall any: Secrets :: Accepted(d, any) ==> n in any
  {
    hide Accepted, LooksUp;
    if LooksUp(d, n) {
      forall any: Secrets | Accepted(d, any) ensures n in any {
        LookedUpExists(d, any, n);
      }
    } else {
      OthersDoNotMatter(d, ss, n);
      var less: Secrets := ss - {n};
      assert Accepted(d, less) && n !in less;
    }
  }

  /** The provider of a cloud plugin other than legacy-aws is named like the plugin. */
  lemma PluginOfProvider(p: Plugin)
    requires IsCloud(p) && p != LegacyAws
    ensures Table(p).value.provider == PluginName(p)
  {
  }

  /**
   For an accepted DPA that checks secrets and has backup locations, every default secret mounted for
   a plugin other than legacy-aws is one that validation looked up, so it existed.
   */
  lemma MountedSecretsExist(d: Dpa, ss: Secrets, m: map<string, bool>, p: Plugin)
    requires Accepted(d, ss) && IsDemand(d, m)
    requires !d.noSecret && !d.noDefaultBackupLocation
    requires p in d.plugins && Mounts(d, m, p) && p != LegacyAws
    ensures LooksUp(d, VolumeOf(p).secret) && VolumeOf(p).secret in ss
  {
    var q := Table(p).value.provider;
    var n := VolumeOf(p).secret;
    DemandTells(d, m, q);
    PluginOfProvider(p);
    if AnyBackupRelies(d.backups, q) {
      var b :| b in d.backups && BackupRelies(b, q);
      assert BackupOk(b, ss);
      assert b.velero.Some? && PluginLooksUp(b.velero.value, p, n);
    } else {
      var s :| s in d.snapshots && SnapshotRelies(s, q, Exempt(d));
      assert s.velero.Some? && PluginLooksUp(s.velero.value, p, n);
    }
    assert PluginNames(d, p, n);
    LookedUpExists(d, ss, n);
  }

  /**
   legacy-aws is not covered by the plugin check, since locations name their provider aws: such a DPA
   can be accepted and mount a default secret that does not exist.
   */
  lemma LegacyAwsMountsMissingSecret(m: map<string, bool>)
    ensures var v := VeleroLocation("aws", None, FileRef("custom"));
      var d := Dpa(false, false, false, [LegacyAws], [BackupLocation(Some(v), None)], []);
      var ss: Secrets := map["custom" := {"cloud"}];
      && Accepted(d, ss)
      && (IsDemand(d, m) ==> Mounts(d, m, LegacyAws) && VolumeOf(LegacyAws) in MountsOf(d, m, d.plugins))
      && VolumeOf(LegacyAws).secret !in ss
  {
    var v := VeleroLocation("aws", None, FileRef("custom"));
    var b := BackupLocation(Some(v), None);
    var d := Dpa(false, false, false, [LegacyAws], [b], []);
    var ss: Secrets := map["custom" := {"cloud"}];
    assert |"aws"| < |"velero.io/"|;
    assert Provider(v) == "aws";
    assert b in d.backups && BackupRelies(b, "aws");
    assert |"legacy-aws"| != |"aws"| && |"cloud-credentials"| != |"custom"|;
    assert BackupOk(b, ss);
    assert forall x :: x in d.plugins ==> x == LegacyAws;
    assert forall n :: !PluginLooksUp(v, LegacyAws, n);
    assert forall n :: !PluginNames(d, LegacyAws, n);
    hide Accepted;
    if IsDemand(d, m) {
      DemandTells(d, m, "aws");
      MountedFrom(d, m, d.plugins, VolumeOf(LegacyAws));
    }
  }
}
