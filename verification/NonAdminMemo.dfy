/**
 The package-level memory behind the NAC restart annotation: the annotation shows the DPA
 resource version of the last build that changed something the controller must restart for.
 */
module NonAdminMemo {

  import opened Wrappers

  /**
   One build of the deployment: the DPA's resource version, its nonAdmin section by content, and
   `args` -- nil, or server args with a backup sync period that may itself be nil.
   */
  datatype Build = Build(version: string, config: int, args: Option<Option<int>>)

  datatype State = State(version: string, config: Option<int>, period: Option<int>)

  const FRESH := State("", None, None)

  /** The builder with its remembered values. */
  class Builder {
    var dpaResourceVersion: string
    var previousConfig: Option<int>
    var previousPeriod: Option<int>

    constructor ()
      ensures Memory() == FRESH
    {
      dpaResourceVersion, previousConfig, previousPeriod := "", None, None;
    }

    function Memory(): State
      reads this
    {
      State(dpaResourceVersion, previousConfig, previousPeriod)
    }

    /** The part of `ensureRequiredSpecs` that sets the annotation. */
    method Annotate(b: Build) returns (annotation: string)
      modifies this
      ensures Memory() == Step(old(Memory()), b) && annotation == Memory().version
    {
      if |dpaResourceVersion| == 0 || Some(b.config) != previousConfig
         || (b.args.Some? && b.args.value != previousPeriod) {
        dpaResourceVersion := b.version;
        previousConfig := Some(b.config);
        if b.args.Some? {
          previousPeriod := b.args.value;
        }
      }
      annotation := dpaResourceVersion;
    }
  }

  predicate Recaptures(s: State, b: Build) {
    s.version == "" || Some(b.config) != s.config || (b.args.Some? && b.args.value != s.period)
  }

  function Step(s: State, b: Build): State {
    if Recaptures(s, b) then State(b.version, Some(b.config), if b.args.Some? then b.args.value else s.period) else s
  }

  function Run(bs: seq<Build>): State {
    if bs == [] then FRESH else Step(Run(bs[..|bs| - 1]), bs[|bs| - 1])
  }

  // ---------------------------------------------------------------- what the memory means

  /** Sync period of the latest build with args; nil before the first one. */
  function LatestPeriod(bs: seq<Build>): Option<int> {
    if bs == [] then None
    else if bs[|bs| - 1].args.Some? then bs[|bs| - 1].args.value
    else LatestPeriod(bs[..|bs| - 1])
  }

  /** The `i`-th build differs, in what matters, from the builds before it. */
  predicate Differs(bs: seq<Build>, i: nat)
    requires i < |bs|
  {
    || i == 0
    || bs[i].config != bs[i - 1].config
    || (bs[i].args.Some? && bs[i].args.value != LatestPeriod(bs[..i]))
  }

  /** `j` is the last build up to the end that differs from those before it. */
  predicate LastDifferent(bs: seq<Build>, j: nat) {
    j < |bs| && Differs(bs, j) && forall k :: j < k < |bs| ==> !Differs(bs, k)
  }

  lemma DiffersInPrefix(bs: seq<Build>, n: nat, i: nat)
    requires i < n <= |bs|
    ensures Differs(bs[..n], i) == Differs(bs, i)
  {
    assert bs[..n][..i] == bs[..i];
  }

  /**
   Over any sequence of builds with non-empty resource versions: the remembered config is the last
   one seen, the remembered period that of the latest build with args, and the annotation the
   resource version of the last build that differs from those before it.
   */
  lemma {:induction false} MemoryMeaning(bs: seq<Build>) returns (j: nat)
    requires bs != []
    requires forall i :: 0 <= i < |bs| ==> bs[i].version != ""
    ensures Run(bs).config == Some(bs[|bs| - 1].config)
    ensures Run(bs).period == LatestPeriod(bs)
    ensures LastDifferent(bs, j) && Run(bs).version == bs[j].version
  {
    var k := |bs| - 1;
    var init := bs[..k];
    if k == 0 {
      assert Run(init) == FRESH;
      j := 0;
    } else {
      j := MemoryMeaning(init);
      assert init[k - 1] == bs[k - 1];
      forall i | 0 <= i < k ensures Differs(init, i) == Differs(bs, i) {
        DiffersInPrefix(bs, k, i);
      }
      if Differs(bs, k) {
        j := k;
      }
    }
  }

  /** The annotation is captured anew at a build exactly when that build differs. */
  lemma RecapturesExactly(bs: seq<Build>, i: nat)
    requires i < |bs|
    requires forall k :: 0 <= k < |bs| ==> bs[k].version != ""
    ensures Recaptures(Run(bs[..i]), bs[i]) <==> Differs(bs, i)
  {
    if i > 0 {
      var _ := MemoryMeaning(bs[..i]);
    }
  }
}
