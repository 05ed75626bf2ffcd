/**
 The AWS STS secret: printed by the standardized STS flow, patched with a region by the
 backup storage location reconciler, read back by the credential parser.
 */
module StsSecret {

  import opened Wrappers
  import opened Text
  import AwsSecret

  const DEFAULT_LINE := "[default]"
  const ENDPOINTS_LINE := "sts_regional_endpoints = regional"
  const ROLE_PREFIX := AwsSecret.ROLE_ARN + " = "
  const TOKEN_PATH := "/var/run/secrets/" + ("openshift/serviceaccount" + "/token")
  const TOKEN_LINE := AwsSecret.TOKEN_FILE + (" = " + TOKEN_PATH)

  const REGION_MARK := "region ="
  const REGION_PREFIX := "region = "

  function Print(role: string): string {
    DEFAULT_LINE + "\n" + (ENDPOINTS_LINE + "\n" + ((ROLE_PREFIX + role) + "\n" + TOKEN_LINE))
  }

  predicate IsSts(text: string) {
    Contains(text, AwsSecret.ROLE_ARN) && Contains(text, AwsSecret.TOKEN_FILE)
  }

  predicate HasRegion(text: string) {
    Contains(text, "\n" + REGION_MARK) || HasPrefix(text, REGION_MARK)
  }

  /** `patchAWSSecretWithRegion` on the text; an empty region means that none was found. */
  function PatchRegion(text: string, region: string): string {
    if !IsSts(text) || HasRegion(text) || region == "" then text
    else if HasSuffix(text, "\n") then text + (REGION_PREFIX + region)
    else text + "\n" + (REGION_PREFIX + region)
  }

  // ---------------------------------------------------------------- where a region line can be

  lemma Marks()
    ensures '\n' !in REGION_MARK && '\n' !in DEFAULT_LINE && '\n' !in ENDPOINTS_LINE && '\n' !in ROLE_PREFIX
    ensures REGION_PREFIX == REGION_MARK + " "
    ensures !HasPrefix(DEFAULT_LINE, REGION_MARK) && !HasPrefix(ENDPOINTS_LINE, REGION_MARK)
  {
    assert REGION_MARK[0] == 'r' && DEFAULT_LINE[0] == '[' && ENDPOINTS_LINE[0] == 's';
  }

  lemma TokenLine()
    ensures '\n' !in TOKEN_LINE
    ensures !HasPrefix(TOKEN_LINE, REGION_MARK)
    ensures TOKEN_PATH != "" && TOKEN_PATH[|TOKEN_PATH| - 1] != '\n'
  {
    assert '\n' !in "/var/run/secrets/" && '\n' !in "openshift/serviceaccount" && '\n' !in "/token";
    assert '\n' !in AwsSecret.TOKEN_FILE;
    assert AwsSecret.TOKEN_FILE[0] == 'w' && REGION_MARK[0] == 'r';
    assert TOKEN_LINE[0] == 'w';
  }

  /** A line start `k` behind a line break of `a + "\n" + b` is in `a`, in `b`, or at the start of `b`. */
  lemma LineStart(a: string, b: string, k: string)
    requires '\n' !in k
    ensures Contains(a + "\n" + b, "\n" + k) <==> Contains(a, "\n" + k) || HasPrefix(b, k) || Contains(b, "\n" + k)
  {
    var s, t := a + "\n" + b, "\n" + k;
    if Contains(s, t) {
      var i :| 0 <= i <= |s| - |t| && At(s, t, i);
      LineStartIn(a, b, k, i);
    }
    if Contains(a, t) {
      ContainsMono("", a, "\n" + b, t);
      assert "" + a + ("\n" + b) == s;
    }
    if HasPrefix(b, k) {
      ContainsMiddle(a, t, b[|k|..]);
      assert b == k + b[|k|..];
      assert a + t + b[|k|..] == s;
    }
    if Contains(b, t) {
      ContainsMono(a + "\n", b, "", t);
      assert (a + "\n") + b + "" == s;
    }
  }

  lemma LineStartIn(a: string, b: string, k: string, i: nat)
    requires '\n' !in k
    requires At(a + "\n" + b, "\n" + k, i)
    ensures Contains(a, "\n" + k) || HasPrefix(b, k) || Contains(b, "\n" + k)
  {
    var s, t := a + "\n" + b, "\n" + k;
    assert s[|a|] == '\n' && s[|a|] !in k;
    assert forall m :: i <= m < i + |t| ==> s[m] == t[m - i];
    assert forall m :: i < m < i + |t| ==> s[m] == k[m - i - 1] && s[m] in k && m != |a|;
    if i > |a| {
      SecondSlice(a + "\n", b, i, i + |t|);
      assert At(b, t, i - |a| - 1);
    } else if i == |a| {
      forall m | 0 <= m < |k| ensures b[m] == k[m] {
        assert b[m] == s[|a| + 1 + m] == t[m + 1];
      }
      assert b[..|k|] == k;
    } else {
      assert i + |t| <= |a|;
      assert a[i..i + |t|] == s[i..i + |t|];
      assert At(a, t, i);
    }
  }

  lemma NoLineStart(p: string, s: string, k: string)
    requires '\n' !in p
    ensures Contains(p + s, "\n" + k) <==> Contains(s, "\n" + k)
  {
    var t := "\n" + k;
    if Contains(p + s, t) {
      var i :| 0 <= i <= |p + s| - |t| && At(p + s, t, i);
      assert (p + s)[i..i + |t|][0] == (p + s)[i] == '\n';
      assert i >= |p|;
      assert s[i - |p|..i - |p| + |t|] == (p + s)[i..i + |t|];
      assert At(s, t, i - |p|);
    }
    if Contains(s, t) {
      ContainsMono(p, s, "", t);
      assert p + s + "" == p + s;
    }
  }

  lemma OneLineHasNoStart(s: string, k: string)
    requires '\n' !in s
    ensures !Contains(s, "\n" + k)
  {
    assert '\n' in "\n" + k;
    ContainsChar(s, "\n" + k, '\n');
  }

  lemma FirstLinePrefix(a: string, b: string, k: string)
    requires '\n' !in k
    ensures HasPrefix(a + "\n" + b, k) <==> HasPrefix(a, k)
  {
    var s := a + "\n" + b;
    assert s[|a|] == '\n';
    if HasPrefix(s, k) {
      assert forall m :: 0 <= m < |k| ==> s[m] == k[m] && s[m] in k;
      assert |k| <= |a|;
      assert a[..|k|] == s[..|k|];
    }
    if HasPrefix(a, k) {
      assert s[..|k|] == a[..|k|];
    }
  }

  /** A printed text has a region line exactly when the role smuggles one in. */
  lemma PrintedRegion(role: string)
    ensures HasRegion(Print(role)) <==> Contains(role, "\n" + REGION_MARK)
  {
    Marks();
    TokenLine();
    var inner := (ROLE_PREFIX + role) + "\n" + TOKEN_LINE;
    var mid := ENDPOINTS_LINE + "\n" + inner;
    LineStart(ROLE_PREFIX + role, TOKEN_LINE, REGION_MARK);
    NoLineStart(ROLE_PREFIX, role, REGION_MARK);
    OneLineHasNoStart(TOKEN_LINE, REGION_MARK);
    LineStart(ENDPOINTS_LINE, inner, REGION_MARK);
    OneLineHasNoStart(ENDPOINTS_LINE, REGION_MARK);
    FirstLinePrefix(ENDPOINTS_LINE, inner, REGION_MARK);
    LineStart(DEFAULT_LINE, mid, REGION_MARK);
    OneLineHasNoStart(DEFAULT_LINE, REGION_MARK);
    FirstLinePrefix(DEFAULT_LINE, mid, REGION_MARK);
    RolePrefixIsNotRegion(role);
  }

  lemma RolePrefixIsNotRegion(role: string)
    ensures !HasPrefix((ROLE_PREFIX + role) + "\n" + TOKEN_LINE, REGION_MARK)
  {
    assert ((ROLE_PREFIX + role) + "\n" + TOKEN_LINE)[1] == 'o' && REGION_MARK[1] == 'e';
  }

  lemma PrintedIsSts(role: string)
    ensures IsSts(Print(role)) && !HasSuffix(Print(role), "\n")
  {
    TwoKeys(DEFAULT_LINE + "\n", ENDPOINTS_LINE + "\n", AwsSecret.ROLE_ARN, " = ", role, "\n",
            AwsSecret.TOKEN_FILE, " = " + TOKEN_PATH);
    TokenLine();
    EndsWith(DEFAULT_LINE + "\n", ENDPOINTS_LINE + "\n", (ROLE_PREFIX + role) + "\n", AwsSecret.TOKEN_FILE, " = ", TOKEN_PATH);
  }

  lemma TwoKeys(a: string, b: string, k1: string, eq: string, role: string, nl: string, k2: string, rest: string)
    ensures var text := a + (b + ((k1 + eq) + role + nl + (k2 + rest))); Contains(text, k1) && Contains(text, k2)
  {
    var text := a + (b + ((k1 + eq) + role + nl + (k2 + rest)));
    assert text == (a + b) + k1 + (eq + role + nl + k2 + rest);
    ContainsMiddle(a + b, k1, eq + role + nl + k2 + rest);
    assert text == (a + b + k1 + eq + role + nl) + k2 + rest;
    ContainsMiddle(a + b + k1 + eq + role + nl, k2, rest);
  }

  lemma EndsWith(a: string, b: string, c: string, d: string, e: string, last: string)
    requires last != "" && last[|last| - 1] != '\n'
    ensures !HasSuffix(a + (b + (c + (d + (e + last)))), "\n")
  {
    var s := a + (b + (c + (d + (e + last))));
    assert s[|s| - 1] == last[|last| - 1];
    assert s[|s| - 1..][0] == s[|s| - 1];
  }

  lemma PatchedHasRegion(text: string, region: string)
    requires PatchRegion(text, region) != text
    ensures HasRegion(PatchRegion(text, region))
  {
    var p := PatchRegion(text, region);
    Marks();
    if HasSuffix(text, "\n") {
      var t := text[..|text| - 1];
      assert text == t + "\n";
      assert p == t + ("\n" + REGION_MARK) + (" " + region);
      ContainsMiddle(t, "\n" + REGION_MARK, " " + region);
    } else {
      assert p == text + ("\n" + REGION_MARK) + (" " + region);
      ContainsMiddle(text, "\n" + REGION_MARK, " " + region);
    }
  }

  /** A patched text has a region line, so the next patch does nothing, on every text. */
  lemma PatchTwice(text: string, first: string, second: string)
    ensures PatchRegion(PatchRegion(text, first), second)
         == if PatchRegion(text, first) != text then PatchRegion(text, first) else PatchRegion(text, second)
  {
    if PatchRegion(text, first) != text {
      PatchedHasRegion(text, first);
      hide HasRegion, IsSts;
    }
  }

  /** An STS secret without a region line, and a region that was found. */
  predicate Due(text: string, region: string) {
    && region != "" && Contains(text, "role_arn") && Contains(text, "web_identity_token_file")
    && !Contains(text, "\nregion =") && !HasPrefix(text, "region =")
  }

  function WithoutLastBreak(text: string): string {
    if text != "" && text[|text| - 1] == '\n' then text[..|text| - 1] else text
  }

  lemma DueExactly(text: string, region: string)
    ensures Due(text, region) <==> IsSts(text) && !HasRegion(text) && region != ""
  {
    assert "\nregion =" == "\n" + REGION_MARK;
    hide Contains;
  }

  lemma LastBreak(text: string)
    ensures HasSuffix(text, "\n") <==> text != "" && text[|text| - 1] == '\n'
    ensures text == WithoutLastBreak(text) + if HasSuffix(text, "\n") then "\n" else ""
  {
    if text != "" {
      assert text[|text| - 1..] == [text[|text| - 1]];
    }
  }

  lemma PatchSpelledOut(text: string, region: string)
    ensures PatchRegion(text, region)
         == if Due(text, region) then WithoutLastBreak(text) + "\n" + ("region = " + region) else text
  {
    DueExactly(text, region);
    LastBreak(text);
    hide Due, IsSts, HasRegion, HasSuffix, WithoutLastBreak;
    var front, line := WithoutLastBreak(text), "region = " + region;
    assert front + "" == front;
  }

  /**
   On every text: a patch that is due adds one line behind the others, and no empty line before it
   when the text ends in a line break; a patch that is not due changes nothing.
   */
  lemma PatchedLines(text: string, region: string)
    requires OneLine(region)
    ensures if Due(text, region) then Lines(PatchRegion(text, region)) == Lines(WithoutLastBreak(text)) + ["region = " + region]
            else PatchRegion(text, region) == text
  {
    PatchSpelledOut(text, region);
    hide Due, WithoutLastBreak, PatchRegion, Lines;
    AppendedLine(WithoutLastBreak(text), "region = " + region);
  }

  lemma AppendedLine(front: string, line: string)
    requires OneLine(line)
    ensures Lines(front + "\n" + line) == Lines(front) + [line]
  {
    LinesConcat(front, line);
    LinesOfOneLine(line);
  }

  /** The four lines of a printed secret. */
  lemma PrintedLines(role: string)
    requires OneLine(role)
    ensures Lines(Print(role)) == ["[default]"] + (["sts_regional_endpoints = regional"] + (["role_arn = " + role] + [TOKEN_LINE]))
  {
    Marks();
    TokenLine();
    assert ROLE_PREFIX == "role_arn = ";
    assert OneLine(ROLE_PREFIX + role);
    hide Lines;
    AppendedLine(ROLE_PREFIX + role, TOKEN_LINE);
    LinesOfOneLine(ROLE_PREFIX + role);
    LinesOfOneLine(ENDPOINTS_LINE);
    LinesOfOneLine(DEFAULT_LINE);
    LinesConcat(ENDPOINTS_LINE, (ROLE_PREFIX + role) + "\n" + TOKEN_LINE);
    LinesConcat(DEFAULT_LINE, ENDPOINTS_LINE + "\n" + ((ROLE_PREFIX + role) + "\n" + TOKEN_LINE));
  }

  // ---------------------------------------------------------------- every interleaving

  /**
   A refresh writes the whole entry. A patch reads the secret first and later sends the patched
   text without a version, so refreshes may come in between; `applied` says whether it arrived.
   */
  datatype Event = Refresh(role: string) | ReadSecret | WriteRegion(region: string, applied: bool)

  /** The stored text and the text that the running patch has read. */
  datatype State = State(secret: Option<string>, copy: Option<string>)

  function Step(s: State, e: Event): State {
    match e
    case Refresh(role) => s.(secret := Some(Print(role)))
    case ReadSecret => s.(copy := s.secret)
    case WriteRegion(region, applied) =>
      if s.copy.None? then s
      else
        var text := PatchRegion(s.copy.value, region);
        State(if applied && text != s.copy.value then Some(text) else s.secret, None)
  }

  function Run(es: seq<Event>): State {
    if es == [] then State(None, None) else Step(Run(es[..|es| - 1]), es[|es| - 1])
  }

  // ---------------------------------------------------------------- what the texts mean

  /** A role and the region added to it; no region is the empty one. */
  datatype Entry = Entry(role: string, region: string)

  datatype Track = Track(stored: Option<Entry>, copy: Option<Entry>)

  /** A patch of an entry without region line adds the region it found. */
  predicate Adds(e: Entry, region: string) {
    e.region == "" && region != "" && !Contains(e.role, "\n" + REGION_MARK)
  }

  function TrackStep(t: Track, e: Event): Track {
    match e
    case Refresh(role) => t.(stored := Some(Entry(role, "")))
    case ReadSecret => t.(copy := t.stored)
    case WriteRegion(region, applied) =>
      if t.copy.None? then t
      else Track(if applied && Adds(t.copy.value, region) then Some(t.copy.value.(region := region)) else t.stored, None)
  }

  function Tracked(es: seq<Event>): Track {
    if es == [] then Track(None, None) else TrackStep(Tracked(es[..|es| - 1]), es[|es| - 1])
  }

  function TextOf(role: string, region: string): string {
    if region == "" || Contains(role, "\n" + REGION_MARK) then Print(role)
    else Print(role) + "\n" + (REGION_PREFIX + region)
  }

  lemma PatchOfPrinted(role: string, region: string)
    ensures PatchRegion(Print(role), region) == TextOf(role, region)
  {
    hide Print, Contains;
    PrintedRegion(role);
    PrintedIsSts(role);
  }

  function Shown(e: Option<Entry>): Option<string> {
    match e
    case None => None
    case Some(Entry(role, region)) => Some(TextOf(role, region))
  }

  /** In every interleaving of refreshes and divided patches, stored text and copy are those of tracked entries. */
  lemma {:induction false} StoredText(es: seq<Event>)
    ensures Run(es) == State(Shown(Tracked(es).stored), Shown(Tracked(es).copy))
  {
    hide PatchRegion, TextOf, Print, Adds;
    if es != [] {
      var init := es[..|es| - 1];
      StoredText(init);
      match es[|es| - 1]
      case Refresh(role) => PrintedText(role);
      case ReadSecret =>
      case WriteRegion(region, applied) =>
        if Tracked(init).copy.Some? {
          AddsExactly(Tracked(init).copy.value, region);
        }
    }
  }

  lemma PrintedText(role: string)
    ensures TextOf(role, "") == Print(role)
  {
  }

  lemma AddsExactly(e: Entry, region: string)
    ensures var text := TextOf(e.role, e.region);
      if Adds(e, region) then PatchRegion(text, region) == TextOf(e.role, region) != text else PatchRegion(text, region) == text
  {
    hide PatchRegion, Print;
    PatchOfTextOf(e.role, e.region, region);
    if Adds(e, region) {
      assert |TextOf(e.role, region)| > |Print(e.role)|;
    }
  }

  lemma PatchOfTextOf(role: string, region: string, next: string)
    ensures PatchRegion(TextOf(role, region), next) == TextOf(role, if region != "" then region else next)
  {
    hide IsSts, HasRegion, Print;
    PatchOfPrinted(role, region);
    PatchOfPrinted(role, next);
    PatchTwice(Print(role), region, next);
  }

  /** The patched text has exactly one line more than the printed one. */
  lemma RegionLine(role: string, region: string)
    requires OneLine(region)
    ensures Lines(Print(role) + "\n" + (REGION_PREFIX + region)) == Lines(Print(role)) + [REGION_PREFIX + region]
  {
    Marks();
    LinesConcat(Print(role), REGION_PREFIX + region);
    assert OneLine(REGION_PREFIX + region);
    LinesOfOneLine(REGION_PREFIX + region);
  }

  // ---------------------------------------------------------------- whose role, whose region

  /** Role of the latest refresh. */
  function LatestRole(es: seq<Event>): Option<string> {
    if es == [] then None
    else if es[|es| - 1].Refresh? then Some(es[|es| - 1].role)
    else LatestRole(es[..|es| - 1])
  }

  /** The last write that arrived since the latest refresh was made from a copy with another role. */
  predicate Overtaken(es: seq<Event>) {
    if es == [] then false
    else
      var init, t := es[..|es| - 1], Tracked(es[..|es| - 1]);
      match es[|es| - 1]
      case Refresh(_) => false
      case ReadSecret => Overtaken(init)
      case WriteRegion(region, applied) =>
        if applied && t.copy.Some? && Adds(t.copy.value, region) then LatestRole(init) != Some(t.copy.value.role)
        else Overtaken(init)
  }

  lemma {:induction false} TrackedOnlyAfterRefresh(es: seq<Event>)
    ensures Tracked(es).stored.Some? <==> LatestRole(es).Some?
    ensures Tracked(es).copy.Some? ==> LatestRole(es).Some?
  {
    if es != [] {
      TrackedOnlyAfterRefresh(es[..|es| - 1]);
    }
  }

  lemma {:induction false} TrackedRoleIsLatest(es: seq<Event>)
    requires LatestRole(es).Some?
    ensures Tracked(es).stored.Some?
    ensures Tracked(es).stored.value.role == LatestRole(es).value <==> !Overtaken(es)
  {
    TrackedOnlyAfterRefresh(es);
    hide Adds;
    if !es[|es| - 1].Refresh? {
      TrackedRoleIsLatest(es[..|es| - 1]);
    }
  }

  predicate OneLineRoles(es: seq<Event>) {
    forall i :: 0 <= i < |es| && es[i].Refresh? ==> OneLine(es[i].role)
  }

  lemma {:induction false} TrackedRolesAreOneLine(es: seq<Event>)
    requires OneLineRoles(es)
    ensures LatestRole(es).Some? ==> OneLine(LatestRole(es).value)
    ensures Tracked(es).stored.Some? ==> OneLine(Tracked(es).stored.value.role)
    ensures Tracked(es).copy.Some? ==> OneLine(Tracked(es).copy.value.role)
  {
    hide OneLine, Adds;
    if es != [] {
      TrackedRolesAreOneLine(es[..|es| - 1]);
    }
  }

  /**
   The stored text is one for the role of the latest refresh exactly if that was not overtaken by a
   patch made from a copy with another role.
   */
  lemma RoleIsLatestExactly(es: seq<Event>)
    requires OneLineRoles(es) && LatestRole(es).Some?
    ensures (exists r :: Run(es).secret == Some(TextOf(LatestRole(es).value, r))) <==> !Overtaken(es)
  {
    StoredText(es);
    TrackedRoleIsLatest(es);
    TrackedRolesAreOneLine(es);
    var latest, stored := LatestRole(es).value, Tracked(es).stored.value;
    hide Run, Tracked, LatestRole, Overtaken, TextOf, OneLineRoles;
    if stored.role != latest {
      forall r ensures TextOf(stored.role, stored.region) != TextOf(latest, r) {
        RolesShow(stored.role, stored.region, latest, r);
      }
    }
  }

  predicate SameRole(es: seq<Event>, role: string) {
    forall i :: 0 <= i < |es| && es[i].Refresh? ==> es[i].role == role
  }

  lemma {:induction false} SameRoleTracked(es: seq<Event>, role: string)
    requires SameRole(es, role)
    ensures var t := Tracked(es);
      (t.stored.Some? ==> t.stored.value.role == role) && (t.copy.Some? ==> t.copy.value.role == role)
  {
    if es != [] {
      SameRoleTracked(es[..|es| - 1], role);
    }
  }

  /** As long as the role does not change, no interleaving overtakes a refresh. */
  lemma FixedRoleText(es: seq<Event>, role: string)
    requires SameRole(es, role) && LatestRole(es).Some?
    ensures LatestRole(es) == Some(role) && !Overtaken(es)
    ensures Tracked(es).stored.Some? && Run(es).secret == Some(TextOf(role, Tracked(es).stored.value.region))
  {
    StoredText(es);
    SameRoleTracked(es, role);
    TrackedRoleIsLatest(es);
    LatestIsSame(es, role);
    hide TextOf, Overtaken;
  }

  lemma {:induction false} LatestIsSame(es: seq<Event>, role: string)
    requires SameRole(es, role) && LatestRole(es).Some?
    ensures LatestRole(es) == Some(role)
  {
    if !es[|es| - 1].Refresh? {
      LatestIsSame(es[..|es| - 1], role);
    }
  }

  /** No refresh comes between the read and the write of a patch. */
  predicate Undivided(es: seq<Event>) {
    es == [] || (Undivided(es[..|es| - 1]) && (es[|es| - 1].Refresh? ==> Tracked(es[..|es| - 1]).copy.None?))
  }

  /** First non-empty region that a patch wrote since the latest refresh; empty if there is none. */
  function FirstRegion(es: seq<Event>): string {
    if es == [] then ""
    else
      var earlier := FirstRegion(es[..|es| - 1]);
      match es[|es| - 1]
      case Refresh(_) => ""
      case ReadSecret => earlier
      case WriteRegion(region, applied) =>
        if earlier != "" || !applied || Tracked(es[..|es| - 1]).copy.None? then earlier else region
  }

  lemma {:induction false} UndividedTracked(es: seq<Event>)
    requires Undivided(es)
    ensures var t := Tracked(es);
      && (t.copy.Some? ==> t.copy == t.stored)
      && (t.stored.None? ==> LatestRole(es).None?)
      && (t.stored.Some? ==>
            && LatestRole(es) == Some(t.stored.value.role)
            && t.stored.value.region == if Contains(t.stored.value.role, "\n" + REGION_MARK) then "" else FirstRegion(es))
  {
    hide Contains;
    if es != [] {
      UndividedTracked(es[..|es| - 1]);
    }
  }

  /**
   With undivided patches the stored text is the one printed for the latest role, plus one region
   line for the first region patched since.
   */
  lemma UndividedText(es: seq<Event>)
    requires Undivided(es)
    ensures Run(es).secret == match LatestRole(es)
                              case None => None
                              case Some(role) => Some(TextOf(role, FirstRegion(es)))
  {
    StoredText(es);
    UndividedTracked(es);
    hide Print, Contains;
  }

  lemma RunOne(es: seq<Event>, e: Event)
    ensures Run(es + [e]) == Step(Run(es), e) && Tracked(es + [e]) == TrackStep(Tracked(es), e)
    ensures LatestRole(es + [e]) == if e.Refresh? then Some(e.role) else LatestRole(es)
  {
    assert (es + [e])[..|es|] == es;
  }

  /** A refresh for the stored role leaves the text alone exactly if no region was added to it; otherwise the region is lost. */
  lemma RefreshDropsRegion(es: seq<Event>, role: string)
    requires Tracked(es).stored.Some? && Tracked(es).stored.value.role == role
    ensures Run(es + [Refresh(role)]).secret == Run(es).secret
      <==> Tracked(es).stored.value.region == "" || Contains(role, "\n" + REGION_MARK)
    ensures Undivided(es) ==> (Run(es + [Refresh(role)]).secret == Run(es).secret
      <==> FirstRegion(es) == "" || Contains(role, "\n" + REGION_MARK))
  {
    StoredText(es);
    RunOne(es, Refresh(role));
    var region := Tracked(es).stored.value.region;
    if Undivided(es) {
      UndividedTracked(es);
    }
    hide Print, Contains, Run, FirstRegion, Undivided;
    assert TextOf(role, region) == Print(role) <==> region == "" || Contains(role, "\n" + REGION_MARK) by {
      assert |Print(role) + "\n" + (REGION_PREFIX + region)| > |Print(role)|;
    }
  }

  /** A run in which the stored text has a region line until the refresh, and none afterwards. */
  lemma RegionLost(role: string, region: string) returns (es: seq<Event>)
    requires region != "" && !Contains(role, "\n" + REGION_MARK)
    ensures SameRole(es, role) && Run(es).secret.Some? && HasRegion(Run(es).secret.value)
    ensures var after := Run(es + [Refresh(role)]).secret; after.Some? && !HasRegion(after.value)
  {
    PatchAfterRefresh(role, region);
    es := [Refresh(role)] + [ReadSecret] + [WriteRegion(region, true)];
    assert SameRole(es, role);
    RunOne(es, Refresh(role));
    PrintedRegion(role);
    AddsExactly(Entry(role, ""), region);
    PrintedText(role);
    PatchedHasRegion(Print(role), region);
    hide Run, TextOf, PatchRegion, HasRegion, Print;
  }

  lemma PatchAfterRefresh(role: string, region: string)
    requires region != "" && !Contains(role, "\n" + REGION_MARK)
    ensures Run([Refresh(role)] + [ReadSecret] + [WriteRegion(region, true)]).secret == Some(TextOf(role, region))
  {
    hide Contains, TextOf;
    assert Tracked([]) == Track(None, None);
    assert [] + [Refresh(role)] == [Refresh(role)];
    RunOne([], Refresh(role));
    RunOne([Refresh(role)], ReadSecret);
    RunOne([Refresh(role)] + [ReadSecret], WriteRegion(region, true));
    StoredText([Refresh(role)] + [ReadSecret] + [WriteRegion(region, true)]);
    hide Run, Tracked;
  }

  /** A refresh to role `b` inside a patch of role `a` is undone: the stored text is that of `a`. */
  lemma PatchUndoesRefresh(a: string, b: string, region: string) returns (es: seq<Event>)
    requires a != b && OneLine(a) && OneLine(b) && region != "" && !Contains(a, "\n" + REGION_MARK)
    ensures es == [Refresh(a)] + [ReadSecret] + [Refresh(b)] + [WriteRegion(region, true)]
    ensures LatestRole(es) == Some(b) && Overtaken(es) && Run(es).secret == Some(TextOf(a, region))
    ensures forall r :: Run(es).secret != Some(TextOf(b, r))
  {
    hide Contains, TextOf, Overtaken;
    var e1 := [Refresh(a)];
    var e2 := e1 + [ReadSecret];
    var e3 := e2 + [Refresh(b)];
    es := e3 + [WriteRegion(region, true)];
    assert Tracked([]) == Track(None, None);
    assert [] + e1 == e1;
    RunOne([], Refresh(a));
    RunOne(e1, ReadSecret);
    RunOne(e2, Refresh(b));
    RunOne(e3, WriteRegion(region, true));
    StoredText(es);
    TrackedRoleIsLatest(es);
    hide Run, Tracked, LatestRole;
    forall r ensures TextOf(a, region) != TextOf(b, r) {
      RolesShow(a, region, b, r);
    }
  }

  lemma RolesShow(a: string, x: string, b: string, y: string)
    requires a != b && OneLine(a) && OneLine(b)
    ensures TextOf(a, x) != TextOf(b, y)
  {
    RoleAt(a, x);
    RoleAt(b, y);
    hide TextOf;
    var s, t, p := TextOf(a, x), TextOf(b, y), |DEFAULT_LINE| + 1 + |ENDPOINTS_LINE| + 1 + |ROLE_PREFIX|;
    if |a| < |b| {
      assert t[p + |a|] == t[p..p + |b|][|a|] == b[|a|];
    } else if |b| < |a| {
      assert s[p + |b|] == s[p..p + |a|][|b|] == a[|b|];
    }
  }

  /** Where the role stands in a stored text; a line break follows. */
  lemma RoleAt(role: string, region: string)
    ensures var text, p := TextOf(role, region), |DEFAULT_LINE| + 1 + |ENDPOINTS_LINE| + 1 + |ROLE_PREFIX|;
      p + |role| < |text| && text[p..p + |role|] == role && text[p + |role|] == '\n'
  {
    hide Contains;
    var head := DEFAULT_LINE + "\n" + (ENDPOINTS_LINE + "\n" + ROLE_PREFIX);
    var tail := "\n" + TOKEN_LINE;
    RolePosition(DEFAULT_LINE + "\n", ENDPOINTS_LINE + "\n", ROLE_PREFIX, role, tail);
    assert (ROLE_PREFIX + role) + "\n" + TOKEN_LINE == (ROLE_PREFIX + role) + tail;
    assert Print(role) == head + role + tail;
    SliceOfMiddle(head, role, tail, "\n" + (REGION_PREFIX + region));
    SliceOfMiddle(head, role, tail, "");
    assert head + role + tail + "" == Print(role);
    Assoc(Print(role), "\n", REGION_PREFIX + region);
  }

  lemma RolePosition(a: string, b: string, c: string, role: string, tail: string)
    ensures a + (b + ((c + role) + tail)) == (a + (b + c)) + role + tail
  {
  }

  lemma SliceOfMiddle(head: string, mid: string, tail: string, more: string)
    requires tail != ""
    ensures var s := head + mid + tail + more;
      |head| + |mid| < |s| && s[|head|..|head| + |mid|] == mid && s[|head| + |mid|] == tail[0]
  {
  }

  // ---------------------------------------------------------------- read back

  /** Whatever follows the first two printed lines, profile `default` is an STS profile without keys. */
  lemma DefaultIsSts(rest: string)
    ensures AwsSecret.ParseSpec(DEFAULT_LINE + "\n" + (ENDPOINTS_LINE + "\n" + rest), "default")
         == Ok(AwsSecret.Keys("", ""))
  {
    var text := DEFAULT_LINE + "\n" + (ENDPOINTS_LINE + "\n" + rest);
    Marks();
    LinesConcat(DEFAULT_LINE, ENDPOINTS_LINE + "\n" + rest);
    LinesConcat(ENDPOINTS_LINE, rest);
    LinesOfOneLine(DEFAULT_LINE);
    LinesOfOneLine(ENDPOINTS_LINE);
    var ls := [ENDPOINTS_LINE] + Lines(rest);
    assert Lines(text) == [DEFAULT_LINE] + ls;
    EndpointsLineIsSts();
    DefaultHeader();
    AwsSecret.StsBehindHeader(DEFAULT_LINE, ENDPOINTS_LINE, Lines(rest), "default");
  }

  lemma EndpointsLineIsSts()
    ensures ENDPOINTS_LINE != "" && !HasBrackets(ENDPOINTS_LINE) && AwsSecret.StsLine(ENDPOINTS_LINE)
  {
    assert '[' !in ENDPOINTS_LINE;
    assert ENDPOINTS_LINE[0..22] == AwsSecret.STS_ENDPOINTS;
    assert WordAt(ENDPOINTS_LINE, AwsSecret.STS_ENDPOINTS, 0);
    assert HasWord(ENDPOINTS_LINE, AwsSecret.STS_ENDPOINTS);
  }

  lemma DefaultHeader()
    ensures AwsSecret.IsHeaderOf(DEFAULT_LINE, "default")
  {
    var p := AwsSecret.Profile("default", AwsSecret.Keys("", ""), 0, TIGHT, TIGHT);
    AwsSecret.HeaderIs(p);
    assert AwsSecret.Header(p) == DEFAULT_LINE;
  }

  lemma StateParses(role: string, region: string)
    ensures AwsSecret.ParseSpec(TextOf(role, region), "default") == Ok(AwsSecret.Keys("", ""))
  {
    var inner := (ROLE_PREFIX + role) + "\n" + TOKEN_LINE;
    var line := "\n" + (REGION_PREFIX + region);
    DefaultIsSts(inner);
    DefaultIsSts(inner + line);
    AppendInside(DEFAULT_LINE + "\n", ENDPOINTS_LINE + "\n", inner, line);
    Assoc(Print(role), "\n", REGION_PREFIX + region);
  }

  lemma AppendInside(a: string, b: string, c: string, d: string)
    ensures a + (b + c) + d == a + (b + (c + d))
  {
  }

  /** In every reachable state the parser accepts profile `default`, with empty keys. */
  lemma EveryStateParses(es: seq<Event>)
    ensures var text := Run(es).secret;
      text.Some? ==> AwsSecret.ParseSpec(text.value, "default") == Ok(AwsSecret.Keys("", ""))
  {
    hide Run, TextOf, AwsSecret.ParseSpec;
    StoredText(es);
    if Tracked(es).stored.Some? {
      StateParses(Tracked(es).stored.value.role, Tracked(es).stored.value.region);
    }
  }

  // ---------------------------------------------------------------- the stored secret

  /** The loop that sets the given entries one by one, in any order. */
  method MergeEntries(from: map<string, string>, add: map<string, string>) returns (r: map<string, string>)
    ensures r == from + add
  {
    r := from;
    var todo := add.Keys;
    while todo != {}
      invariant todo <= add.Keys
      invariant r.Keys == from.Keys + (add.Keys - todo)
      invariant forall k :: k in add && k !in todo ==> r[k] == add[k]
      invariant forall k :: k in from && (k !in add || k in todo) ==> r[k] == from[k]
      decreases |todo|
    {
      var k :| k in todo;
      r := r[k := add[k]];
      todo := todo - {k};
    }
  }

  predicate OnlyRefreshes(es: seq<Event>) {
    forall i :: 0 <= i < |es| ==> es[i].Refresh?
  }

  lemma {:induction false} CopyStays(es: seq<Event>, more: seq<Event>)
    requires OnlyRefreshes(more)
    ensures Run(es + more).copy == Run(es).copy
  {
    if more == [] {
      assert es + more == es;
    } else {
      var init, e := more[..|more| - 1], more[|more| - 1];
      CopyStays(es, init);
      assert es + more == es + init + [e];
      RunOne(es + init, e);
      hide Run;
    }
  }

  /** The secret object as the API server keeps it; the ghost `history` records what was done to its STS entry. */
  class Secret {
    var present: bool
    var data: map<string, string>
    ghost var history: seq<Event>

    constructor ()
      ensures !present && data == map[] && Valid() && history == []
    {
      present, data, history := false, map[], [];
    }

    function Credentials(): Option<string>
      reads this
    {
      if present && "credentials" in data then Some(data["credentials"]) else None
    }

    /** The entry is what the machine has made of it. */
    ghost predicate Valid()
      reads this
    {
      Credentials() == Run(history).secret
    }

    ghost method Record(e: Event)
      modifies this`history
      ensures history == old(history) + [e] && Run(history) == Step(Run(old(history)), e)
    {
      RunOne(history, e);
      history := history + [e];
    }

    /** `CreateOrUpdateSTSSecretWithClientsAndWait`: create, or overwrite the given entries and keep the others. */
    method CreateOrUpdate(stringData: map<string, string>)
      modifies this`present, this`data
      ensures present
      ensures data == if old(present) then old(data) + stringData else stringData
    {
      if !present {
        present, data := true, stringData;
      } else {
        data := MergeEntries(data, stringData);
      }
    }

    method RefreshSts(role: string)
      requires Valid()
      modifies this
      ensures Valid() && history == old(history) + [Refresh(role)]
      ensures present && forall k :: old(present) && k in old(data) && k != "credentials" ==> k in data && data[k] == old(data)[k]
    {
      hide Print, Run;
      CreateOrUpdate(map["credentials" := Print(role)]);
      Record(Refresh(role));
    }

    /** CloudStorage reconciles refresh the secret any number of times, with any roles. */
    method Interleave() returns (ghost more: seq<Event>)
      requires Valid()
      modifies this
      ensures Valid() && history == old(history) + more && OnlyRefreshes(more)
      ensures old(present) ==> present
      ensures forall k :: old(present) && k in old(data) && k != "credentials" ==> k in data && data[k] == old(data)[k]
    {
      hide Run;
      more := [];
      var n: nat := *;
      while n > 0
        invariant Valid() && history == old(history) + more && OnlyRefreshes(more)
        invariant old(present) ==> present
        invariant forall k :: old(present) && k in old(data) && k != "credentials" ==> k in data && data[k] == old(data)[k]
      {
        var role: string := *;
        RefreshSts(role);
        more := more + [Refresh(role)];
        n := n - 1;
      }
    }

    /** The text that the patch sends, if any. */
    method PatchedText(cred: string, region: string) returns (updated: Option<string>)
      ensures updated == if PatchRegion(cred, region) == cred then None else Some(PatchRegion(cred, region))
    {
      if !(Contains(cred, AwsSecret.ROLE_ARN) && Contains(cred, AwsSecret.TOKEN_FILE)) {
        return None;
      }
      if Contains(cred, "\n" + REGION_MARK) || HasPrefix(cred, REGION_MARK) {
        return None;
      }
      if region == "" {
        return None;
      }
      if HasSuffix(cred, "\n") {
        return Some(cred + (REGION_PREFIX + region));
      }
      return Some(cred + "\n" + (REGION_PREFIX + region));
    }

    /**
     `patchAWSSecretWithRegion`: a read, any refreshes, and a write that the machine makes of the text
     that was read. The other entries stay; undisturbed, a patch that arrives adds the region.
     */
    method PatchWithRegion(region: string) returns (ok: bool, ghost more: seq<Event>, ghost applied: bool)
      requires Valid()
      modifies this
      ensures Valid() && OnlyRefreshes(more) && (ok ==> applied)
      ensures history == old(history) + [ReadSecret] + more + [WriteRegion(region, applied)]
      ensures more == [] && applied ==>
        Credentials() == (if old(Credentials()).None? then None else Some(PatchRegion(old(Credentials()).value, region)))
      ensures forall k :: old(present) && k in old(data) && k != "credentials" ==> k in data && data[k] == old(data)[k]
    {
      hide PatchRegion, Run;
      Record(ReadSecret);
      var read := Credentials();
      var updated := None;
      if read.Some? {
        updated := PatchedText(read.value, region);
      }
      ghost var atRead := history;
      more := Interleave();
      assert more == [] ==> history == atRead;
      CopyStays(atRead, more);
      var broken: bool, arrived: bool := *, *;
      ok, applied := !broken, !broken || arrived;
      Record(WriteRegion(region, applied));
      if updated.Some? && (!broken || arrived) {
        data := data["credentials" := updated.value];
      }
    }
  }
}
