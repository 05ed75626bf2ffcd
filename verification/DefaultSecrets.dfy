/**
 The default secrets that are mounted because of the demand map: into the Velero Deployment
 and into the node-agent DaemonSet, after AutoCorrect, and whether validation has seen them.
 */
module DefaultSecrets {

  import opened Wrappers
  import opened CredentialDemand

  // ---------------------------------------------------------------- AutoCorrect

  predicate NoDuplicates<T(==)>(s: seq<T>) {
    forall i, j :: 0 <= i < j < |s| ==> s[i] != s[j]
  }

  /** First occurrences, in order. */
  function Dedup<T(==)>(s: seq<T>): seq<T> {
    if s == [] then []
    else
      var before := Dedup(s[..|s| - 1]);
      if s[|s| - 1] in before then before else before + [s[|s| - 1]]
  }

  /** `RemoveDuplicateValues`: one pass with a set of values seen. */
  method RemoveDuplicateValues<T(==)>(s: seq<T>) returns (r: seq<T>)
    ensures r == Dedup(s)
  {
    var keys: set<T> := {};
    r := [];
    var i := 0;
    while i < |s|
      invariant 0 <= i <= |s|
      invariant r == Dedup(s[..i])
      invariant forall x :: x in keys <==> x in r
    {
      assert s[..i + 1][..i] == s[..i];
      if s[i] !in keys {
        keys := keys + {s[i]};
        r := r + [s[i]];
      }
      i := i + 1;
    }
    assert s[..|s|] == s;
  }

  /** Deduplication keeps the values, drops the repeats, and is the identity on lists without any. */
  lemma {:induction false} DedupProperties<T>(s: seq<T>)
    ensures NoDuplicates(Dedup(s))
    ensures forall x :: x in Dedup(s) <==> x in s
    ensures NoDuplicates(s) ==> Dedup(s) == s
  {
    if s != [] {
      var k := |s| - 1;
      var init := s[..k];
      DedupProperties(init);
      assert s == init + [s[k]];
      assert forall x :: x in s <==> x in init || x == s[k];
      if NoDuplicates(s) {
        assert NoDuplicates(init) by {
          assert forall i :: 0 <= i < k ==> init[i] == s[i];
        }
        assert s[k] !in init;
      }
    }
  }

  /** `at` lists where the values of `r` first occur in `s`, in the order of `s`. */
  predicate FirstOccurrences<T(==)>(s: seq<T>, r: seq<T>, at: seq<nat>) {
    && |at| == |r|
    && (forall i, j :: 0 <= i < j < |at| ==> at[i] < at[j])
    && (forall i :: 0 <= i < |at| ==> at[i] < |s| && s[at[i]] == r[i] && s[at[i]] !in s[..at[i]])
  }

  /** Deduplication keeps the first occurrences, in their order. */
  lemma {:induction false} DedupKeepsOrder<T>(s: seq<T>) returns (at: seq<nat>)
    ensures FirstOccurrences(s, Dedup(s), at)
  {
    if s == [] {
      at := [];
    } else {
      hide FirstOccurrences, NoDuplicates, Dedup;
      var k := |s| - 1;
      var init := s[..k];
      assert s == init + [s[k]];
      at := DedupKeepsOrder(init);
      DedupSnoc(init, s[k]);
      FirstOccurrencesSnoc(init, Dedup(init), at, s[k]);
      if s[k] !in Dedup(init) {
        at := at + [k];
      }
    }
  }

  lemma DedupSnoc<T>(s: seq<T>, x: T)
    ensures Dedup(s + [x]) == if x in Dedup(s) then Dedup(s) else Dedup(s) + [x]
    ensures x in Dedup(s) <==> x in s
  {
    assert (s + [x])[..|s|] == s;
    DedupProperties(s);
    hide NoDuplicates;
  }

  lemma FirstOccurrencesSnoc<T>(s: seq<T>, r: seq<T>, at: seq<nat>, x: T)
    requires FirstOccurrences(s, r, at)
    ensures FirstOccurrences(s + [x], r, at)
    ensures x !in s ==> FirstOccurrences(s + [x], r + [x], at + [|s|])
  {
    var t := s + [x];
    forall i | 0 <= i < |at| ensures t[at[i]] == r[i] && t[..at[i]] == s[..at[i]] {
    }
    assert t[..|s|] == s;
  }

  /** The fields of the DPA that AutoCorrect rewrites; durations and texts by content. */
  datatype Config = Config(
    plugins: seq<Plugin>,
    featureFlags: seq<string>,
    versionPriority: bool,              // restoreResourcesVersionPriority is set
    args: Option<Args>,
    fsBackupTimeout: Option<int>,       // None: the timeout text is not a duration
    nodeSelector: Option<int>,
    loadAffinity: Option<int>
  )

  datatype Args = Args(podVolumeTimeout: Option<int>, resourcePriorities: Option<int>)

  const CSI_FLAG := "EnableCSI"
  const VERSIONS_FLAG := "EnableAPIGroupVersions"
  const DEFAULT_PRIORITIES := 0

  function ImpliedFlags(csi: bool, versionPriority: bool): seq<string> {
    (if csi then [CSI_FLAG] else []) + (if versionPriority then [VERSIONS_FLAG] else [])
  }

  function FlagsWith(c: Config): seq<string> {
    c.featureFlags + ImpliedFlags(Csi in c.plugins, c.versionPriority)
  }

  function CorrectArgs(c: Config): Option<Args> {
    if c.args.None? then None
    else
      var a := c.args.value;
      Some(Args(if a.podVolumeTimeout.Some? then a.podVolumeTimeout else c.fsBackupTimeout,
                if a.resourcePriorities.Some? then a.resourcePriorities else Some(DEFAULT_PRIORITIES)))
  }

  function Corrected(c: Config): Config {
    c.(plugins := Dedup(c.plugins), featureFlags := Dedup(FlagsWith(c)), args := CorrectArgs(c),
       loadAffinity := if c.loadAffinity.None? then c.nodeSelector else c.loadAffinity)
  }

  class Corrector {
    var config: Config

    constructor (c: Config)
      ensures config == c
    {
      config := c;
    }

    /** `AutoCorrect`. */
    method AutoCorrect()
      modifies this
      ensures config == Corrected(old(config))
    {
      hide Dedup;
      if Csi in config.plugins {
        config := config.(featureFlags := config.featureFlags + [CSI_FLAG]);
      }
      if config.versionPriority {
        config := config.(featureFlags := config.featureFlags + [VERSIONS_FLAG]);
      }
      assert config.featureFlags == FlagsWith(old(config));
      if config.args.Some? {
        var a := config.args.value;
        if config.fsBackupTimeout.Some? && a.podVolumeTimeout.None? {
          a := a.(podVolumeTimeout := config.fsBackupTimeout);
        }
        if a.resourcePriorities.None? {
          a := a.(resourcePriorities := Some(DEFAULT_PRIORITIES));
        }
        config := config.(args := Some(a));
      }
      var plugins := RemoveDuplicateValues(config.plugins);
      var flags := RemoveDuplicateValues(config.featureFlags);
      config := config.(plugins := plugins, featureFlags := flags);
      if config.nodeSelector.Some? && config.loadAffinity.None? {
        config := config.(loadAffinity := config.nodeSelector);
      }
    }
  }

  lemma {:induction false} DedupConcat<T>(a: seq<T>, b: seq<T>)
    requires NoDuplicates(a) && forall x :: x in b ==> x in a
    ensures Dedup(a + b) == a
  {
    if b == [] {
      assert a + b == a;
      DedupProperties(a);
    } else {
      var k := |b| - 1;
      assert (a + b)[..|a + b| - 1] == a + b[..k];
      DedupConcat(a, b[..k]);
      assert b[k] in b;
    }
  }

  /** AutoCorrect applied twice is AutoCorrect applied once. */
  lemma AutoCorrectIdempotent(c: Config)
    ensures Corrected(Corrected(c)) == Corrected(c)
  {
    DedupProperties(c.plugins);
    DedupProperties(Dedup(c.plugins));
    hide ImpliedFlags;
    FlagsTwice(c.featureFlags, ImpliedFlags(Csi in c.plugins, c.versionPriority));
    hide Dedup;
  }

  /**
   What AutoCorrect does, field by field: the user's plugins and flags without repeats, the two flags
   that csi and the version priority imply, and defaults where the user gave none.
   */
  lemma CorrectedIs(c: Config)
    ensures var r := Corrected(c);
      && NoDuplicates(r.plugins) && NoDuplicates(r.featureFlags)
      && (forall p :: p in r.plugins <==> p in c.plugins)
      && (forall f :: f in r.featureFlags <==>
            || f in c.featureFlags || (f == "EnableCSI" && Csi in c.plugins)
            || (f == "EnableAPIGroupVersions" && c.versionPriority))
      && (r.args.Some? <==> c.args.Some?)
      && (c.args.Some? ==>
            && r.args.value.podVolumeTimeout
               == (if c.args.value.podVolumeTimeout.Some? then c.args.value.podVolumeTimeout else c.fsBackupTimeout)
            && r.args.value.resourcePriorities.Some?
            && (c.args.value.resourcePriorities.Some? ==> r.args.value.resourcePriorities == c.args.value.resourcePriorities))
      && (c.loadAffinity.Some? ==> r.loadAffinity == c.loadAffinity) && (c.loadAffinity.None? ==> r.loadAffinity == c.nodeSelector)
      && r == c.(plugins := r.plugins, featureFlags := r.featureFlags, args := r.args, loadAffinity := r.loadAffinity)
  {
    DedupProperties(c.plugins);
    DedupProperties(FlagsWith(c));
    assert forall f :: f in FlagsWith(c) <==> f in c.featureFlags || f in ImpliedFlags(Csi in c.plugins, c.versionPriority);
    hide Dedup, NoDuplicates;
  }

  lemma FlagsTwice(flags: seq<string>, implied: seq<string>)
    ensures Dedup(Dedup(flags + implied) + implied) == Dedup(flags + implied)
  {
    DedupProperties(flags + implied);
    DedupConcat(Dedup(flags + implied), implied);
  }

  // ---------------------------------------------------------------- mounted volumes

  /** A secret volume with its mount path and credentials file variable. */
  datatype Volume = Volume(secret: string, mountPath: string, env: string)

  function VolumeOf(p: Plugin): Volume
    requires IsCloud(p)
  {
    Volume(Table(p).value.secret, Table(p).value.mountPath, Table(p).value.env)
  }

  predicate Needed(m: map<string, bool>, provider: string) {
    provider in m && m[provider]
  }

  predicate Mounts(d: Dpa, m: map<string, bool>, p: Plugin) {
    IsCloud(p) && Needed(m, Table(p).value.provider) && (!d.noDefaultBackupLocation || d.mtc)
  }

  lemma DemandTells(d: Dpa, m: map<string, bool>, p: string)
    requires IsDemand(d, m)
    ensures Needed(m, p) <==> Relies(d, p)
  {
    if Relies(d, p) {
      ReliedIsMentioned(d, p);
    }
  }

  lemma ReliedIsMentioned(d: Dpa, p: string)
    requires Relies(d, p)
    ensures Mentions(d, p)
  {
    ReliesIsMentioned(d.backups, p);
    NotMentionedNotRelied(d.snapshots, p, Exempt(d));
  }

  function MountsOf(d: Dpa, m: map<string, bool>, ps: seq<Plugin>): seq<Volume> {
    if ps == [] then []
    else MountsOf(d, m, ps[..|ps| - 1]) + if Mounts(d, m, ps[|ps| - 1]) then [VolumeOf(ps[|ps| - 1])] else []
  }

  /** The plugin loop of `appendPluginSpecificSpecs` on the Velero Deployment. */
  method VeleroVolumes(d: Dpa, m: map<string, bool>) returns (vs: seq<Volume>)
    ensures vs == MountsOf(d, m, d.plugins)
  {
    vs := [];
    for i := 0 to |d.plugins|
      invariant vs == MountsOf(d, m, d.plugins[..i])
    {
      assert d.plugins[..i + 1][..i] == d.plugins[..i];
      var fields := Table(d.plugins[i]);
      if fields.Some? {
        var needsCheck := Needed(m, fields.value.provider);
        if !fields.value.isCloud || !needsCheck {
          continue;
        }
        if d.noDefaultBackupLocation && !d.mtc && fields.value.isCloud {
          continue;
        }
        vs := vs + [Volume(fields.value.secret, fields.value.mountPath, fields.value.env)];
      }
    }
    assert d.plugins[..|d.plugins|] == d.plugins;
  }

  function SecretsOf(vs: seq<Volume>): seq<string> {
    seq(|vs|, i requires 0 <= i < |vs| => vs[i].secret)
  }

  /** The secret named by a location's `credentialsFile`; a blank entry names the empty one. */
  function FileSecret(b: BackupLocation): Option<string> {
    if b.velero.None? then None
    else match b.velero.value.file
      case NoFile => None
      case BlankFile => Some("")
      case FileRef(name) => Some(name)
      case BadFile => None
  }

  function FileSecrets(bs: seq<BackupLocation>): seq<string> {
    if bs == [] then []
    else FileSecrets(bs[..|bs| - 1]) + match FileSecret(bs[|bs| - 1]) case None => [] case Some(n) => [n]
  }

  /** The secrets are those that some location names; a blank entry counts as naming the empty one. */
  lemma {:induction false} FileSecretsAre(bs: seq<BackupLocation>, n: string)
    ensures n in FileSecrets(bs) <==>
      exists b :: b in bs && b.velero.Some? && (b.velero.value.file == FileRef(n) || (n == "" && b.velero.value.file == BlankFile))
  {
    if bs != [] {
      var k := |bs| - 1;
      FileSecretsAre(bs[..k], n);
      assert bs == bs[..k] + [bs[k]];
      assert forall b :: b in bs <==> b in bs[..k] || b == bs[k];
      hide FileSecret;
      FileSecretIs(bs[k], n);
    }
  }

  lemma FileSecretIs(b: BackupLocation, n: string)
    ensures FileSecret(b) == Some(n)
      <==> b.velero.Some? && (b.velero.value.file == FileRef(n) || (n == "" && b.velero.value.file == BlankFile))
  {
  }

  /**
   `AppendCloudProviderVolumes` on the node-agent DaemonSet: the plugin loop, which also mounts, and
   the loop over the locations. `names` are the names of all volumes.
   */
  method NodeAgentVolumes(d: Dpa, m: map<string, bool>) returns (vs: seq<Volume>, names: seq<string>)
    ensures vs == MountsOf(d, m, d.plugins)
    ensures names == SecretsOf(vs) + FileSecrets(d.backups)
  {
    vs := NodeAgentMounts(d, m);
    names := SecretsOf(vs);
    for i := 0 to |d.backups|
      invariant names == SecretsOf(vs) + FileSecrets(d.backups[..i])
    {
      assert d.backups[..i + 1][..i] == d.backups[..i];
      var b := d.backups[i];
      if b.velero.Some? && b.velero.value.file != NoFile {
        var file := b.velero.value.file;
        if !file.BadFile? {
          names := names + [if file.FileRef? then file.name else ""];
        }
      }
    }
    assert d.backups[..|d.backups|] == d.backups;
  }

  method NodeAgentMounts(d: Dpa, m: map<string, bool>) returns (vs: seq<Volume>)
    ensures vs == MountsOf(d, m, d.plugins)
  {
    vs := [];
    for i := 0 to |d.plugins|
      invariant vs == MountsOf(d, m, d.plugins[..i])
    {
      assert d.plugins[..i + 1][..i] == d.plugins[..i];
      var fields := Table(d.plugins[i]);
      if fields.Some? && fields.value.isCloud && (!d.noDefaultBackupLocation || d.mtc) {
        var needsCheck := Needed(m, fields.value.provider);
        if fields.value.isCloud && needsCheck {
          vs := vs + [Volume(fields.value.secret, fields.value.mountPath, fields.value.env)];
        }
      }
    }
    assert d.plugins[..|d.plugins|] == d.plugins;
  }

  predicate DistinctSecrets(vs: seq<Volume>) {
    forall i, j :: 0 <= i < j < |vs| ==> vs[i].secret != vs[j].secret
  }

  lemma SharedSecret(p: Plugin, q: Plugin)
    requires IsCloud(p) && IsCloud(q)
    ensures VolumeOf(p).secret == VolumeOf(q).secret <==> p == q || (p == Aws && q == LegacyAws) || (p == LegacyAws && q == Aws)
  {
    assert |"cloud-credentials"| == 17 && |"cloud-credentials-gcp"| == 21 && |"cloud-credentials-azure"| == 23;
  }

  lemma {:induction false} MountedFrom(d: Dpa, m: map<string, bool>, ps: seq<Plugin>, v: Volume)
    ensures v in MountsOf(d, m, ps) <==> exists p :: p in ps && Mounts(d, m, p) && VolumeOf(p) == v
  {
    if ps != [] {
      var k := |ps| - 1;
      MountedFrom(d, m, ps[..k], v);
      assert ps == ps[..k] + [ps[k]];
      assert forall p :: p in ps <==> p in ps[..k] || p == ps[k];
      hide Mounts;
      var tail := if Mounts(d, m, ps[k]) then [VolumeOf(ps[k])] else [];
      assert v in MountsOf(d, m, ps) <==> v in MountsOf(d, m, ps[..k]) || v in tail;
    }
  }

  /** No two plugins of the list share a secret. */
  predicate NoSharedSecret(ps: seq<Plugin>) {
    NoDuplicates(ps) && !(Aws in ps && LegacyAws in ps)
  }

  lemma {:induction false} VolumesAreDistinct(d: Dpa, m: map<string, bool>, ps: seq<Plugin>)
    requires NoSharedSecret(ps)
    ensures DistinctSecrets(MountsOf(d, m, ps))
  {
    if ps != [] {
      var k := |ps| - 1;
      var init := ps[..k];
      assert NoDuplicates(init) && ps[k] !in init by {
        assert forall i :: 0 <= i < k ==> init[i] == ps[i];
      }
      assert forall p :: p in init ==> p in ps;
      VolumesAreDistinct(d, m, init);
      if Mounts(d, m, ps[k]) {
        forall v | v in MountsOf(d, m, init) ensures v.secret != VolumeOf(ps[k]).secret {
          MountedFrom(d, m, init, v);
          var p :| p in init && Mounts(d, m, p) && VolumeOf(p) == v;
          SharedSecret(p, ps[k]);
        }
        DistinctSnoc(MountsOf(d, m, init), VolumeOf(ps[k]));
      } else {
        assert MountsOf(d, m, ps) == MountsOf(d, m, init);
      }
    }
  }

  lemma DistinctSnoc(vs: seq<Volume>, v: Volume)
    requires DistinctSecrets(vs) && forall u :: u in vs ==> u.secret != v.secret
    ensures DistinctSecrets(vs + [v])
  {
    assert forall i :: 0 <= i < |vs| ==> vs[i] in vs;
  }

  /** The volumes of the three providers, and when they are mounted. */
  lemma MountedExactly(d: Dpa, m: map<string, bool>)
    ensures var vs, on := MountsOf(d, m, d.plugins), !d.noDefaultBackupLocation || d.mtc;
      && (forall v :: v in vs ==> v.secret in {"cloud-credentials", "cloud-credentials-gcp", "cloud-credentials-azure"})
      && (Volume("cloud-credentials", "/credentials", "AWS_SHARED_CREDENTIALS_FILE") in vs
          <==> (Aws in d.plugins || LegacyAws in d.plugins) && "aws" in m && m["aws"] && on)
      && (Volume("cloud-credentials-gcp", "/credentials-gcp", "GOOGLE_APPLICATION_CREDENTIALS") in vs
          <==> Gcp in d.plugins && "gcp" in m && m["gcp"] && on)
      && (Volume("cloud-credentials-azure", "/credentials-azure", "AZURE_CREDENTIALS_FILE") in vs
          <==> Azure in d.plugins && "azure" in m && m["azure"] && on)
  {
    MountedFor(d, m, Aws);
    MountedFor(d, m, Gcp);
    MountedFor(d, m, Azure);
    forall v | v in MountsOf(d, m, d.plugins)
      ensures v.secret in {"cloud-credentials", "cloud-credentials-gcp", "cloud-credentials-azure"}
    {
      MountedFrom(d, m, d.plugins, v);
    }
    hide MountsOf;
  }

  /** The volume of a plugin is mounted for it, or for the other plugin of the same provider. */
  lemma MountedFor(d: Dpa, m: map<string, bool>, q: Plugin)
    requires IsCloud(q)
    ensures VolumeOf(q) in MountsOf(d, m, d.plugins)
      <==> Mounts(d, m, q) && (q in d.plugins || (q == Aws && LegacyAws in d.plugins) || (q == LegacyAws && Aws in d.plugins))
  {
    MountedFrom(d, m, d.plugins, VolumeOf(q));
    hide MountsOf;
    forall p | p in d.plugins && Mounts(d, m, p) && VolumeOf(p) == VolumeOf(q)
      ensures p == q || (p == Aws && q == LegacyAws) || (p == LegacyAws && q == Aws)
    {
      SharedSecret(p, q);
    }
    assert VolumeOf(Aws) == VolumeOf(LegacyAws) && (Mounts(d, m, Aws) <==> Mounts(d, m, LegacyAws));
    hide Mounts;
  }

  /** Two lists together have no repeats exactly if neither has one and they share nothing. */
  lemma NoDuplicatesConcat<T>(a: seq<T>, b: seq<T>)
    ensures NoDuplicates(a + b) <==> NoDuplicates(a) && NoDuplicates(b) && forall x :: x in a ==> x !in b
  {
    var s := a + b;
    assert forall i :: 0 <= i < |a| ==> s[i] == a[i];
    assert forall i :: 0 <= i < |b| ==> s[|a| + i] == b[i];
    if NoDuplicates(s) {
      forall i, j | 0 <= i < j < |a| ensures a[i] != a[j] {
        assert s[i] != s[j];
      }
      forall i, j | 0 <= i < j < |b| ensures b[i] != b[j] {
        assert s[|a| + i] != s[|a| + j];
      }
      forall x | x in a ensures x !in b {
        var i :| 0 <= i < |a| && a[i] == x;
        forall j | 0 <= j < |b| ensures b[j] != x {
          assert s[i] != s[|a| + j];
        }
      }
    } else {
      var i, j :| 0 <= i < j < |s| && s[i] == s[j];
      if j < |a| {
        assert a[i] == a[j];
      } else if i >= |a| {
        assert b[i - |a|] == b[j - |a|];
      } else {
        assert a[i] in a && b[j - |a|] in b;
      }
    }
  }

  /**
   The volumes of the DaemonSet have pairwise distinct names exactly if no secret is named by two
   `credentialsFile` entries and none of them is a default secret that is mounted.
   */
  lemma NodeAgentNamesDistinct(d: Dpa, m: map<string, bool>)
    requires NoSharedSecret(d.plugins)
    ensures NoDuplicates(SecretsOf(MountsOf(d, m, d.plugins)) + FileSecrets(d.backups))
      <==> && NoDuplicates(FileSecrets(d.backups))
           && forall p :: p in d.plugins && Mounts(d, m, p) ==> VolumeOf(p).secret !in FileSecrets(d.backups)
  {
    var vs := MountsOf(d, m, d.plugins);
    VolumesAreDistinct(d, m, d.plugins);
    NoDuplicatesConcat(SecretsOf(vs), FileSecrets(d.backups));
    hide FileSecrets, MountsOf, Mounts, NoSharedSecret;
    assert NoDuplicates(SecretsOf(vs));
    forall x ensures x in SecretsOf(vs) <==> exists p :: p in d.plugins && Mounts(d, m, p) && VolumeOf(p).secret == x {
      MountedSecret(d, m, x);
    }
  }

  lemma MountedSecret(d: Dpa, m: map<string, bool>, x: string)
    ensures x in SecretsOf(MountsOf(d, m, d.plugins)) <==> exists p :: p in d.plugins && Mounts(d, m, p) && VolumeOf(p).secret == x
  {
    var vs := MountsOf(d, m, d.plugins);
    if x in SecretsOf(vs) {
      var i :| 0 <= i < |vs| && vs[i].secret == x;
      MountedFrom(d, m, d.plugins, vs[i]);
    }
    if p :| p in d.plugins && Mounts(d, m, p) && VolumeOf(p).secret == x {
      MountedFrom(d, m, d.plugins, VolumeOf(p));
      var i :| 0 <= i < |vs| && vs[i] == VolumeOf(p);
      assert SecretsOf(vs)[i] == x;
    }
  }

  /** A location that names the default secret in its `credentialsFile` and relies on it: the volume occurs twice. */
  lemma RepeatedVolumeName(m: map<string, bool>)
    ensures var secret := VolumeOf(Aws).secret;
      var v := VeleroLocation("aws", None, FileRef(secret));
      var d := Dpa(false, false, false, [Aws], [BackupLocation(Some(v), None)], []);
      IsDemand(d, m) ==> !NoDuplicates(SecretsOf(MountsOf(d, m, d.plugins)) + FileSecrets(d.backups))
  {
    var secret := VolumeOf(Aws).secret;
    var v := VeleroLocation("aws", None, FileRef(secret));
    var bs := [BackupLocation(Some(v), None)];
    var d := Dpa(false, false, false, [Aws], bs, []);
    assert bs[..0] == [];
    assert secret in FileSecrets(bs);
    hide FileSecrets;
    if IsDemand(d, m) {
      assert |"aws"| < |"velero.io/"|;
      assert Provider(v) == "aws";
      assert bs[0] in d.backups && BackupRelies(bs[0], "aws");
      DemandTells(d, m, "aws");
      assert Aws in d.plugins && Mounts(d, m, Aws);
      NodeAgentNamesDistinct(d, m);
    }
  }

  /**
   For an accepted list of plugins, corrected by AutoCorrect, the Deployment and the DaemonSet get
   the same volumes in the same order, and their names are pairwise distinct although aws and
   legacy-aws share a secret.
   */
  method MountDefaultSecrets(d: Dpa, m: map<string, bool>) returns (velero: seq<Volume>, nodeAgent: seq<Volume>)
    requires !(Aws in d.plugins && LegacyAws in d.plugins)
    ensures velero == nodeAgent && DistinctSecrets(velero)
    ensures forall p :: p in d.plugins && Mounts(d, m, p) ==> VolumeOf(p) in velero
    ensures forall v :: v in velero ==> exists p :: p in d.plugins && Mounts(d, m, p) && VolumeOf(p) == v
  {
    var plugins := RemoveDuplicateValues(d.plugins);
    DedupProperties(d.plugins);
    var corrected := d.(plugins := plugins);
    velero := VeleroVolumes(corrected, m);
    var names;
    nodeAgent, names := NodeAgentVolumes(corrected, m);
    VolumesAreDistinct(corrected, m, plugins);
    forall v ensures v in velero <==> exists p :: p in d.plugins && Mounts(d, m, p) && VolumeOf(p) == v {
      MountedFrom(corrected, m, plugins, v);
      assert forall p :: Mounts(corrected, m, p) == Mounts(d, m, p);
      hide Mounts;
    }
  }
}
