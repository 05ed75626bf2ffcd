/**
 Which providers need their default secret: `noDefaultCredentials`, its two consumers (the
 Velero Deployment and the node-agent DaemonSet) and the validation of the secrets they mount.
 */
module CredentialDemand {

  import opened Wrappers
  import opened Text

  // ---------------------------------------------------------------- the DPA

  datatype Plugin = Aws | LegacyAws | Gcp | Azure | OpenShift | KubeVirt | Hypershift | Csi | Vsm

  /** The plugin table; csi and vsm have no entry. */
  datatype Fields = Fields(isCloud: bool, secret: string, mountPath: string, env: string, provider: string)

  function Table(p: Plugin): Option<Fields> {
    match p
    case Aws => Some(Fields(true, "cloud-credentials", "/credentials", "AWS_SHARED_CREDENTIALS_FILE", "aws"))
    case LegacyAws => Some(Fields(true, "cloud-credentials", "/credentials", "AWS_SHARED_CREDENTIALS_FILE", "aws"))
    case Gcp => Some(Fields(true, "cloud-credentials-gcp", "/credentials-gcp", "GOOGLE_APPLICATION_CREDENTIALS", "gcp"))
    case Azure => Some(Fields(true, "cloud-credentials-azure", "/credentials-azure", "AZURE_CREDENTIALS_FILE", "azure"))
    case OpenShift => Some(Fields(false, "", "", "", ""))
    case KubeVirt => Some(Fields(false, "", "", "", ""))
    case Hypershift => Some(Fields(false, "", "", "", ""))
    case Csi => None
    case Vsm => None
  }

  predicate IsCloud(p: Plugin) {
    Table(p).Some? && Table(p).value.isCloud
  }

  datatype Credential = Credential(name: string, key: string)

  datatype VeleroLocation = VeleroLocation(provider: string, credential: Option<Credential>, file: CredentialsFile)

  /** The `credentialsFile` entry of a location's config: absent, blank, `name/key`, or not of that form. */
  datatype CredentialsFile = NoFile | BlankFile | FileRef(name: string) | BadFile

  /** `refProvider` is the provider of the referenced CloudStorage CR; None if it cannot be read. */
  datatype CloudLocation = CloudLocation(credential: Option<Credential>, hasRefName: bool, refProvider: Option<string>)

  datatype BackupLocation = BackupLocation(velero: Option<VeleroLocation>, cloud: Option<CloudLocation>)

  datatype SnapshotLocation = SnapshotLocation(velero: Option<VeleroLocation>)

  datatype Dpa = Dpa(noDefaultBackupLocation: bool, mtc: bool, noSecret: bool,
                     plugins: seq<Plugin>, backups: seq<BackupLocation>, snapshots: seq<SnapshotLocation>)

  function Provider(v: VeleroLocation): string {
    TrimPrefix(v.provider, "velero.io/")
  }

  /** A provider may be named with or without the prefix of Velero's own plugins. */
  lemma ProviderExactly(v: VeleroLocation, p: string)
    ensures Provider(v) == p <==> v.provider == "velero.io/" + p || (v.provider == p && !HasPrefix(v.provider, "velero.io/"))
  {
    var prefix := "velero.io/";
    if HasPrefix(v.provider, prefix) {
      assert v.provider == prefix + v.provider[|prefix|..];
      SamePrefix(prefix, v.provider[|prefix|..], p);
    } else {
      assert HasPrefix(prefix + p, prefix);
    }
  }

  // ---------------------------------------------------------------- who relies on a default secret

  predicate BackupRelies(b: BackupLocation, p: string) {
    || (b.velero.Some? && b.velero.value.credential.None? && Provider(b.velero.value) == p)
    || (b.cloud.Some? && b.cloud.value.credential.None? && b.cloud.value.refProvider == Some(p))
  }

  predicate BackupMentions(b: BackupLocation, p: string) {
    (b.velero.Some? && Provider(b.velero.value) == p) || BackupRelies(b, p)
  }

  predicate HasOwnCredential(b: BackupLocation) {
    b.cloud.Some? && b.cloud.value.credential.Some?
  }

  predicate Readable(b: BackupLocation) {
    b.cloud.Some? && b.cloud.value.credential.None? ==> b.cloud.value.refProvider.Some?
  }

  /** An AWS snapshot location may use the credential of a CloudStorage backup location. */
  predicate SnapshotRelies(s: SnapshotLocation, p: string, exempt: bool) {
    s.velero.Some? && Provider(s.velero.value) == p && s.velero.value.credential.None? && !(p == "aws" && exempt)
  }

  predicate SnapshotMentions(s: SnapshotLocation, p: string) {
    s.velero.Some? && Provider(s.velero.value) == p
  }

  predicate PluginMentions(x: Plugin, p: string) {
    IsCloud(x) && Table(x).value.provider == p
  }

  predicate AnyBackupRelies(bs: seq<BackupLocation>, p: string) {
    exists b :: b in bs && BackupRelies(b, p)
  }

  predicate AnyBackupMentions(bs: seq<BackupLocation>, p: string) {
    exists b :: b in bs && BackupMentions(b, p)
  }

  predicate AnyOwnCredential(bs: seq<BackupLocation>) {
    exists b :: b in bs && HasOwnCredential(b)
  }

  predicate AllReadable(bs: seq<BackupLocation>) {
    forall b :: b in bs ==> Readable(b)
  }

  predicate AnySnapshotRelies(ss: seq<SnapshotLocation>, p: string, exempt: bool) {
    exists s :: s in ss && SnapshotRelies(s, p, exempt)
  }

  predicate AnySnapshotMentions(ss: seq<SnapshotLocation>, p: string) {
    exists s :: s in ss && SnapshotMentions(s, p)
  }

  predicate AnyPluginMentions(xs: seq<Plugin>, p: string) {
    exists x :: x in xs && PluginMentions(x, p)
  }

  predicate Exempt(d: Dpa) {
    !d.noDefaultBackupLocation && AnyOwnCredential(d.backups)
  }

  /** Some location relies on provider `p`'s default secret; MTC needs it for every cloud plugin. */
  predicate Relies(d: Dpa, p: string) {
    || (if d.noDefaultBackupLocation then d.mtc && AnyPluginMentions(d.plugins, p) else AnyBackupRelies(d.backups, p))
    || AnySnapshotRelies(d.snapshots, p, Exempt(d))
  }

  predicate Mentions(d: Dpa, p: string) {
    || (if d.noDefaultBackupLocation then AnyPluginMentions(d.plugins, p) else AnyBackupMentions(d.backups, p))
    || AnySnapshotMentions(d.snapshots, p)
  }

  predicate Decidable(d: Dpa) {
    d.noDefaultBackupLocation || AllReadable(d.backups)
  }

  /** The demand map tells, for exactly the providers mentioned, whether some location relies on them. */
  ghost predicate IsDemand(d: Dpa, m: map<string, bool>) {
    forall p :: (p in m <==> Mentions(d, p)) && (p in m ==> (m[p] <==> Relies(d, p)))
  }

  /** The demand of a single Velero location: its provider, with need unless it brings a credential. */
  lemma DemandOfOneLocation(provider: string, v: VeleroLocation, mtc: bool, noSecret: bool, plugins: seq<Plugin>, m: map<string, bool>)
    requires v.provider == "velero.io/" + provider || (v.provider == provider && !HasPrefix(provider, "velero.io/"))
    ensures IsDemand(Dpa(false, mtc, noSecret, plugins, [BackupLocation(Some(v), None)], []), m)
      <==> m == map[provider := v.credential.None?]
  {
    var b := BackupLocation(Some(v), None);
    var d := Dpa(false, mtc, noSecret, plugins, [b], []);
    ProviderExactly(v, provider);
    hide Provider;
    assert forall x :: x in [b] <==> x == b;
    forall p ensures (Mentions(d, p) <==> p == provider) && (Relies(d, p) <==> p == provider && v.credential.None?) {
      assert BackupMentions(b, p) <==> p == provider;
      assert BackupRelies(b, p) <==> p == provider && v.credential.None?;
    }
    hide Mentions, Relies;
    if IsDemand(d, m) {
      assert m.Keys == {provider};
    }
  }

  /**
   A CloudStorage location with a credential of its own, and a snapshot location without: AWS may use
   the credential, so there is no need; any other provider needs its default secret.
   */
  lemma DemandBesideCloudStorage(provider: string, v: VeleroLocation, cloud: CloudLocation, plugins: seq<Plugin>, m: map<string, bool>)
    requires v.provider == provider && !HasPrefix(provider, "velero.io/") && v.credential.None? && cloud.credential.Some?
    ensures IsDemand(Dpa(false, false, false, plugins, [BackupLocation(None, Some(cloud))], [SnapshotLocation(Some(v))]), m)
      <==> m == map[provider := provider != "aws"]
  {
    var b, s := BackupLocation(None, Some(cloud)), SnapshotLocation(Some(v));
    var d := Dpa(false, false, false, plugins, [b], [s]);
    ProviderExactly(v, provider);
    hide Provider;
    assert forall x :: x in [b] <==> x == b;
    assert forall x :: x in [s] <==> x == s;
    assert HasOwnCredential(b) && Exempt(d);
    forall p ensures (Mentions(d, p) <==> p == provider) && (Relies(d, p) <==> p == provider && provider != "aws") {
      assert !BackupMentions(b, p) && !BackupRelies(b, p);
      assert SnapshotMentions(s, p) <==> p == provider;
      assert SnapshotRelies(s, p, true) <==> p == provider && p != "aws";
    }
    hide Mentions, Relies;
    if IsDemand(d, m) {
      assert m.Keys == {provider};
    }
  }

  // ---------------------------------------------------------------- noDefaultCredentials

  ghost predicate BackupDemand(bs: seq<BackupLocation>, m: map<string, bool>) {
    forall p :: (p in m <==> AnyBackupMentions(bs, p)) && (p in m ==> (m[p] <==> AnyBackupRelies(bs, p)))
  }

  /** What one backup location does to the map. */
  function WithBackup(m: map<string, bool>, b: BackupLocation): map<string, bool>
    requires Readable(b)
  {
    var m1 :=
      if b.velero.None? then m
      else if b.velero.value.credential.None? then m[Provider(b.velero.value) := true]
      else if Provider(b.velero.value) in m then m
      else m[Provider(b.velero.value) := false];
    if b.cloud.Some? && b.cloud.value.credential.None? then m1[b.cloud.value.refProvider.value := true] else m1
  }

  lemma BackupSnoc(bs: seq<BackupLocation>, b: BackupLocation, p: string)
    ensures AnyBackupMentions(bs + [b], p) <==> AnyBackupMentions(bs, p) || BackupMentions(b, p)
    ensures AnyBackupRelies(bs + [b], p) <==> AnyBackupRelies(bs, p) || BackupRelies(b, p)
  {
    hide BackupMentions, BackupRelies;
    assert b in bs + [b];
    assert forall x :: x in bs ==> x in bs + [b];
  }

  lemma BackupDemandSnoc(bs: seq<BackupLocation>, m: map<string, bool>, b: BackupLocation)
    requires BackupDemand(bs, m) && Readable(b)
    ensures BackupDemand(bs + [b], WithBackup(m, b))
  {
    var m' := WithBackup(m, b);
    forall p
      ensures p in m' <==> AnyBackupMentions(bs + [b], p)
      ensures p in m' ==> (m'[p] <==> AnyBackupRelies(bs + [b], p))
    {
      BackupSnoc(bs, b, p);
      hide AnyBackupMentions, AnyBackupRelies, Provider;
      assert p in m ==> (m[p] <==> AnyBackupRelies(bs, p));
    }
  }

  /** The loop over the backup locations. */
  method DemandOfBackups(bs: seq<BackupLocation>) returns (r: Option<map<string, bool>>, hasCloudStorage: bool)
    ensures r.Some? <==> AllReadable(bs)
    ensures r.Some? ==> BackupDemand(bs, r.value) && hasCloudStorage == AnyOwnCredential(bs)
  {
    hide BackupMentions, BackupRelies, Provider;
    var m: map<string, bool> := map[];
    hasCloudStorage := false;
    var i := 0;
    while i < |bs|
      invariant 0 <= i <= |bs|
      invariant AllReadable(bs[..i]) && BackupDemand(bs[..i], m)
      invariant hasCloudStorage == AnyOwnCredential(bs[..i])
    {
      var b := bs[i];
      assert bs[..i + 1] == bs[..i] + [b];
      ghost var before := m;
      if b.velero.Some? && b.velero.value.credential.None? {
        m := m[Provider(b.velero.value) := true];
      }
      if b.velero.Some? && b.velero.value.credential.Some? {
        if Provider(b.velero.value) !in m {
          m := m[Provider(b.velero.value) := false];
        }
      }
      if b.cloud.Some? {
        if b.cloud.value.credential.None? {
          if b.cloud.value.refProvider.None? {
            assert b in bs && !Readable(b);
            return None, hasCloudStorage;
          }
          m := m[b.cloud.value.refProvider.value := true];
        } else {
          hasCloudStorage := true;
          assert HasOwnCredential(b);
        }
      }
      assert m == WithBackup(before, b);
      BackupDemandSnoc(bs[..i], before, b);
      OwnCredentialSnoc(bs[..i], b);
      hide BackupDemand, WithBackup, AnyOwnCredential;
      i := i + 1;
    }
    assert bs[..|bs|] == bs;
    return Some(m), hasCloudStorage;
  }

  lemma OwnCredentialSnoc(bs: seq<BackupLocation>, b: BackupLocation)
    ensures AnyOwnCredential(bs + [b]) <==> AnyOwnCredential(bs) || HasOwnCredential(b)
  {
    hide HasOwnCredential;
    assert b in bs + [b];
    assert forall x :: x in bs ==> x in bs + [b];
  }

  /** The loop over the plugins when there is no default backup location. */
  method DemandOfPlugins(xs: seq<Plugin>, needed: bool) returns (m: map<string, bool>)
    ensures forall p :: (p in m <==> AnyPluginMentions(xs, p)) && (p in m ==> m[p] == needed)
  {
    m := map[];
    var i := 0;
    while i < |xs|
      invariant 0 <= i <= |xs|
      invariant forall p :: (p in m <==> AnyPluginMentions(xs[..i], p)) && (p in m ==> m[p] == needed)
    {
      assert xs[..i + 1] == xs[..i] + [xs[i]];
      ghost var before := m;
      if IsCloud(xs[i]) {
        m := m[Table(xs[i]).value.provider := needed];
      }
      forall p ensures p in m <==> AnyPluginMentions(xs[..i + 1], p) {
        PluginSnoc(xs[..i], xs[i], p);
      }
      i := i + 1;
    }
    assert xs[..|xs|] == xs;
  }

  lemma PluginSnoc(xs: seq<Plugin>, x: Plugin, p: string)
    ensures AnyPluginMentions(xs + [x], p) <==> AnyPluginMentions(xs, p) || PluginMentions(x, p)
  {
    hide PluginMentions;
    assert x in xs + [x];
    assert forall y :: y in xs ==> y in xs + [x];
  }

  lemma SnapshotSnoc(ss: seq<SnapshotLocation>, s: SnapshotLocation, p: string, exempt: bool)
    ensures AnySnapshotMentions(ss + [s], p) <==> AnySnapshotMentions(ss, p) || SnapshotMentions(s, p)
    ensures AnySnapshotRelies(ss + [s], p, exempt) <==> AnySnapshotRelies(ss, p, exempt) || SnapshotRelies(s, p, exempt)
  {
    hide SnapshotMentions, SnapshotRelies;
    assert s in ss + [s];
    assert forall y :: y in ss ==> y in ss + [s];
  }

  /** `m` after the snapshot locations `ss`, starting from `from`. */
  ghost predicate WithSnapshots(from: map<string, bool>, ss: seq<SnapshotLocation>, exempt: bool, m: map<string, bool>) {
    forall p ::
      && (p in m <==> p in from || AnySnapshotMentions(ss, p))
      && (p in m ==> (m[p] <==> (p in from && from[p]) || AnySnapshotRelies(ss, p, exempt)))
  }

  function WithSnapshot(m: map<string, bool>, s: SnapshotLocation, exempt: bool): map<string, bool> {
    if s.velero.None? then m
    else
      var p := Provider(s.velero.value);
      if s.velero.value.credential.Some? || (p == "aws" && exempt) then (if p in m then m else m[p := false]) else m[p := true]
  }

  lemma WithSnapshotsSnoc(from: map<string, bool>, ss: seq<SnapshotLocation>, exempt: bool, m: map<string, bool>, s: SnapshotLocation)
    requires WithSnapshots(from, ss, exempt, m)
    ensures WithSnapshots(from, ss + [s], exempt, WithSnapshot(m, s, exempt))
  {
    hide AnySnapshotMentions, AnySnapshotRelies, Provider;
    var m' := WithSnapshot(m, s, exempt);
    forall p
      ensures p in m' <==> p in from || AnySnapshotMentions(ss + [s], p)
      ensures p in m' ==> (m'[p] <==> (p in from && from[p]) || AnySnapshotRelies(ss + [s], p, exempt))
    {
      SnapshotSnoc(ss, s, p, exempt);
      NotMentionedNotRelied(ss, p, exempt);
      assert p in m <==> p in from || AnySnapshotMentions(ss, p);
      assert p in m ==> (m[p] <==> (p in from && from[p]) || AnySnapshotRelies(ss, p, exempt));
    }
  }

  lemma NotMentionedNotRelied(ss: seq<SnapshotLocation>, p: string, exempt: bool)
    ensures AnySnapshotRelies(ss, p, exempt) ==> AnySnapshotMentions(ss, p)
  {
  }

  /** The loop over the snapshot locations. */
  method DemandOfSnapshots(from: map<string, bool>, ss: seq<SnapshotLocation>, hasCloudStorage: bool) returns (m: map<string, bool>)
    ensures WithSnapshots(from, ss, hasCloudStorage, m)
  {
    hide Provider, SnapshotMentions, SnapshotRelies;
    m := from;
    var i := 0;
    while i < |ss|
      invariant 0 <= i <= |ss|
      invariant WithSnapshots(from, ss[..i], hasCloudStorage, m)
    {
      assert ss[..i + 1] == ss[..i] + [ss[i]];
      ghost var before := m;
      if ss[i].velero.Some? {
        var provider := Provider(ss[i].velero.value);
        if ss[i].velero.value.credential.Some? || (provider == "aws" && hasCloudStorage) {
          if provider !in m {
            m := m[provider := false];
          }
        } else {
          m := m[provider := true];
        }
      }
      assert m == WithSnapshot(before, ss[i], hasCloudStorage);
      WithSnapshotsSnoc(from, ss[..i], hasCloudStorage, before, ss[i]);
      i := i + 1;
    }
    assert ss[..|ss|] == ss;
  }

  /** `noDefaultCredentials`: an error exactly if a needed CloudStorage CR cannot be read, else the demand map. */
  method NoDefaultCredentials(d: Dpa) returns (r: Option<map<string, bool>>)
    ensures r.Some? <==> Decidable(d)
    ensures r.Some? ==> IsDemand(d, r.value)
  {
    var m: map<string, bool> := map[];
    var hasCloudStorage := false;
    if d.noDefaultBackupLocation {
      m := DemandOfPlugins(d.plugins, d.mtc);
    } else {
      var backups;
      backups, hasCloudStorage := DemandOfBackups(d.backups);
      if backups.None? {
        return None;
      }
      m := backups.value;
    }
    var all := DemandOfSnapshots(m, d.snapshots, hasCloudStorage);
    hide AnyBackupMentions, AnyBackupRelies, AnySnapshotMentions, AnySnapshotRelies, AnyPluginMentions, AnyOwnCredential;
    forall p
      ensures p in all <==> Mentions(d, p)
      ensures p in all ==> (all[p] <==> Relies(d, p))
    {
      if !d.noDefaultBackupLocation {
        ReliesIsMentioned(d.backups, p);
      }
    }
    return Some(all);
  }

  lemma ReliesIsMentioned(bs: seq<BackupLocation>, p: string)
    ensures AnyBackupRelies(bs, p) ==> AnyBackupMentions(bs, p)
  {
  }

  // ---------------------------------------------------------------- order does not matter

  lemma SameMembers<T>(a: seq<T>, b: seq<T>)
    requires multiset(a) == multiset(b)
    ensures forall x :: x in a <==> x in b
  {
    assert forall x :: x in a <==> x in multiset(a);
    assert forall x :: x in b <==> x in multiset(b);
  }

  /** The demand depends on the locations and plugins only as multisets. */
  lemma DemandIgnoresOrder(d: Dpa, e: Dpa, m: map<string, bool>, n: map<string, bool>)
    requires e == d.(plugins := e.plugins, backups := e.backups, snapshots := e.snapshots)
    requires multiset(d.plugins) == multiset(e.plugins) && multiset(d.backups) == multiset(e.backups)
    requires multiset(d.snapshots) == multiset(e.snapshots)
    requires IsDemand(d, m) && IsDemand(e, n)
    ensures m == n && (Decidable(d) <==> Decidable(e))
  {
    SameMembers(d.plugins, e.plugins);
    SameMembers(d.backups, e.backups);
    SameMembers(d.snapshots, e.snapshots);
    hide BackupRelies, BackupMentions, SnapshotRelies, SnapshotMentions, PluginMentions, HasOwnCredential, Readable;
    assert Exempt(d) == Exempt(e);
    forall p ensures (p in m <==> p in n) && (p in m ==> m[p] == n[p]) {
      assert Mentions(d, p) == Mentions(e, p);
      assert Relies(d, p) == Relies(e, p);
    }
  }
}
