/**
 The two parsers of AWS shared-credentials texts: `parseAWSSecret` of the DPA
 controller and `ParseAWSSecret` of pkg/utils, against the profile format they read.
 */
module AwsSecret {

  import opened Wrappers
  import opened Text

  const ACCESS_KEY := "aws_access_key_id"
  const SECRET_KEY := "aws_secret_access_key"
  const ROLE_ARN := "role_arn"
  const TOKEN_FILE := "web_identity_token_file"
  const STS_ENDPOINTS := "sts_regional_endpoints"

  datatype Keys = Keys(access: string, secret: string)

  datatype ParseError =
    | NoProfile
    | NoCredentials
    | NoAccessKey
    | NoSecretKey
    | EmptyValue(key: string)

  /** An error, and the keys that are returned beside it. */
  datatype Failure = Failure(reason: ParseError, keys: Keys)

  type Parsed = Result<Keys, Failure>

  // ---------------------------------------------------------------- controller parser

  predicate StsLine(line: string) {
    HasWord(line, ROLE_ARN) || HasWord(line, TOKEN_FILE) || HasWord(line, STS_ENDPOINTS)
  }

  /** Profile name of a header line: blanks and brackets dropped wherever they stand. */
  function HeaderName(line: string): string {
    Remove(Remove(Remove(line, ' '), '['), ']')
  }

  /** Some line before the next header carries an STS field. */
  predicate StsBeforeHeader(ls: seq<string>) {
    ls != [] &&
    if ls[0] == "" then StsBeforeHeader(ls[1..])
    else if HasBrackets(ls[0]) then false
    else StsLine(ls[0]) || StsBeforeHeader(ls[1..])
  }

  /** What one line of a profile does to the keys read so far. */
  function KeyLine(line: string, k: Keys): Parsed {
    if HasWord(line, ACCESS_KEY) then
      match KeyValue(ACCESS_KEY, line)
      case Err(key) => Err(Failure(EmptyValue(key), k.(access := "")))
      case Ok(v) => Ok(k.(access := v))
    else if HasWord(line, SECRET_KEY) then
      match KeyValue(SECRET_KEY, line)
      case Err(key) => Err(Failure(EmptyValue(key), k.(secret := "")))
      case Ok(v) => Ok(k.(secret := v))
    else Ok(k)
  }

  /** Keys collected up to the next header; a later line overrides an earlier one. */
  function KeysBeforeHeader(ls: seq<string>, k: Keys): Parsed {
    if ls == [] then Ok(k)
    else if ls[0] == "" then KeysBeforeHeader(ls[1..], k)
    else if HasBrackets(ls[0]) then Ok(k)
    else match KeyLine(ls[0], k)
      case Err(e) => Err(e)
      case Ok(k') => KeysBeforeHeader(ls[1..], k')
  }

  function Finish(profile: string, k: Keys): Parsed {
    if profile == "" then Err(Failure(NoProfile, k))
    else if k.access == "" && k.secret == "" then Err(Failure(NoCredentials, k))
    else if k.access == "" then Err(Failure(NoAccessKey, k))
    else if k.secret == "" then Err(Failure(NoSecretKey, k))
    else Ok(k)
  }

  predicate IsHeaderOf(line: string, want: string) {
    line != "" && HasBrackets(line) && HeaderName(line) == want
  }

  /** The whole scan: every header of the wanted profile is visited, the last one wins. */
  function Scan(ls: seq<string>, want: string, profile: string, k: Keys): Parsed {
    if ls == [] then Finish(profile, k)
    else if !IsHeaderOf(ls[0], want) then Scan(ls[1..], want, profile, k)
    else if StsBeforeHeader(ls[1..]) then Ok(Keys("", ""))
    else match KeysBeforeHeader(ls[1..], k)
      case Err(e) => Err(e)
      case Ok(k') => Scan(ls[1..], want, want, k')
  }

  function ParseSpec(text: string, want: string): Parsed {
    Scan(Lines(text), want, "", Keys("", ""))
  }

  method DetectSts(ls: seq<string>, start: nat) returns (sts: bool)
    requires start <= |ls|
    ensures sts == StsBeforeHeader(ls[start..])
  {
    var j := start;
    while j < |ls|
      invariant start <= j <= |ls|
      invariant StsBeforeHeader(ls[start..]) == StsBeforeHeader(ls[j..])
    {
      var line := ls[j];
      assert ls[j..][1..] == ls[j + 1..];
      if line != "" {
        if HasBrackets(line) {
          return false;
        }
        if StsLine(line) {
          return true;
        }
      }
      j := j + 1;
    }
    return false;
  }

  method ReadKeyLine(line: string, from: Keys) returns (r: Parsed)
    ensures r == KeyLine(line, from)
  {
    var access, secret := from.access, from.secret;
    if HasWord(line, ACCESS_KEY) {
      var v := KeyValue(ACCESS_KEY, line);
      if v.Err? {
        return Err(Failure(EmptyValue(v.error), Keys("", secret)));
      }
      access := v.value;
    } else if HasWord(line, SECRET_KEY) {
      var v := KeyValue(SECRET_KEY, line);
      if v.Err? {
        return Err(Failure(EmptyValue(v.error), Keys(access, "")));
      }
      secret := v.value;
    }
    return Ok(Keys(access, secret));
  }

  method CollectKeys(ls: seq<string>, start: nat, from: Keys) returns (r: Parsed)
    requires start <= |ls|
    ensures r == KeysBeforeHeader(ls[start..], from)
  {
    hide HasWord, HasBrackets, KeyLine;
    var k := from;
    var j := start;
    while j < |ls|
      invariant start <= j <= |ls|
      invariant KeysBeforeHeader(ls[start..], from) == KeysBeforeHeader(ls[j..], k)
    {
      assert ls[j..][0] == ls[j] && ls[j..][1..] == ls[j + 1..];
      if ls[j] != "" {
        if HasBrackets(ls[j]) {
          return Ok(k);
        }
        var line := ReadKeyLine(ls[j], k);
        if line.Err? {
          return line;
        }
        k := line.value;
      }
      j := j + 1;
    }
    return Ok(k);
  }

  /** `parseAWSSecret`: the nested scans of the controller compute `ParseSpec`. */
  method ParseAwsSecret(text: string, want: string) returns (r: Parsed)
    ensures r == ParseSpec(text, want)
  {
    hide HasBrackets, HeaderName, KeyLine, StsLine, Finish;
    var lines := Lines(text);
    var profile, k := "", Keys("", "");
    var i := 0;
    while i < |lines|
      invariant 0 <= i <= |lines|
      invariant ParseSpec(text, want) == Scan(lines[i..], want, profile, k)
    {
      var line := lines[i];
      assert lines[i..][1..] == lines[i + 1..];
      if line != "" && HasBrackets(line) && HeaderName(line) == want {
        profile := want;
        if i + 1 >= |lines| {
          break;
        }
        var sts := DetectSts(lines, i + 1);
        if sts {
          return Ok(Keys("", ""));
        }
        var keys := CollectKeys(lines, i + 1, k);
        if keys.Err? {
          return keys;
        }
        k := keys.value;
      }
      i := i + 1;
    }
    return Finish(profile, k);
  }

  // ---------------------------------------------------------------- pkg/utils parser

  /** `unicode.IsSpace`. */
  predicate IsSpace(c: char) {
    || '\t' <= c <= '\r' || c == ' ' || c == '\U{85}' || c == '\U{A0}' || c == '\U{1680}'
    || '\U{2000}' <= c <= '\U{200A}' || c == '\U{2028}' || c == '\U{2029}'
    || c == '\U{202F}' || c == '\U{205F}' || c == '\U{3000}'
  }

  predicate HeaderTrim(c: char) {
    c == '[' || c == ']' || c == ' '
  }

  function TrimLeft(s: string, drop: char -> bool): string {
    if s != "" && drop(s[0]) then TrimLeft(s[1..], drop) else s
  }

  function TrimRight(s: string, drop: char -> bool): string {
    if s != "" && drop(s[|s| - 1]) then TrimRight(s[..|s| - 1], drop) else s
  }

  function Trim(s: string, drop: char -> bool): string {
    TrimRight(TrimLeft(s, drop), drop)
  }

  function TrimSpace(s: string): string {
    Trim(s, IsSpace)
  }

  function ValueOrEmpty(key: string, line: string): string {
    match KeyValue(key, line)
    case Ok(v) => v
    case Err(_) => ""
  }

  /** Keys on the lines directly after the header; the first line of another kind ends the profile. */
  function UtilsKeys(ls: seq<string>, k: Keys): Keys {
    if ls == [] then k
    else if TrimSpace(ls[0]) == "" then UtilsKeys(ls[1..], k)
    else if HasWord(ls[0], ACCESS_KEY) then
      UtilsKeys(ls[1..], k.(access := ValueOrEmpty(ACCESS_KEY, ls[0])))
    else if HasWord(ls[0], SECRET_KEY) then
      UtilsKeys(ls[1..], k.(secret := ValueOrEmpty(SECRET_KEY, ls[0])))
    else k
  }

  predicate IsUtilsHeaderOf(line: string, want: string) {
    var t := TrimSpace(line);
    t != "" && HasBrackets(t) && Trim(t, HeaderTrim) == want
  }

  function UtilsFinish(profile: string, k: Keys): Option<Keys> {
    if profile == "" || k.access == "" || k.secret == "" then None else Some(k)
  }

  /** Only the first header of the wanted profile is looked at. */
  function UtilsScan(ls: seq<string>, want: string): Option<Keys> {
    if ls == [] then None
    else if IsUtilsHeaderOf(ls[0], want) then UtilsFinish(want, UtilsKeys(ls[1..], Keys("", "")))
    else UtilsScan(ls[1..], want)
  }

  method CollectUtilsKeys(lines: seq<string>, start: nat) returns (k: Keys)
    requires start <= |lines|
    ensures k == UtilsKeys(lines[start..], Keys("", ""))
  {
    hide HasWord, HasBrackets, ValueOrEmpty, TrimSpace;
    k := Keys("", "");
    var j := start;
    while j < |lines|
      invariant start <= j <= |lines|
      invariant UtilsKeys(lines[start..], Keys("", "")) == UtilsKeys(lines[j..], k)
    {
      var line := lines[j];
      assert lines[j..][0] == line && lines[j..][1..] == lines[j + 1..];
      if TrimSpace(line) != "" {
        if HasWord(line, ACCESS_KEY) {
          k := k.(access := ValueOrEmpty(ACCESS_KEY, line));
        } else if HasWord(line, SECRET_KEY) {
          k := k.(secret := ValueOrEmpty(SECRET_KEY, line));
        } else {
          return;
        }
      }
      j := j + 1;
    }
  }

  /** `ParseAWSSecret` of pkg/utils; every failure is the same error there. */
  method ParseAwsSecretUtils(text: string, want: string) returns (r: Option<Keys>)
    ensures r == UtilsScan(Lines(text), want)
  {
    var lines := Lines(text);
    var i := 0;
    while i < |lines|
      invariant 0 <= i <= |lines|
      invariant UtilsScan(lines, want) == UtilsScan(lines[i..], want)
    {
      var line := TrimSpace(lines[i]);
      assert lines[i..][0] == lines[i] && lines[i..][1..] == lines[i + 1..];
      if line != "" && HasBrackets(line) && Trim(line, HeaderTrim) == want {
        var k := CollectUtilsKeys(lines, i + 1);
        return UtilsFinish(want, k);
      }
      i := i + 1;
    }
    return None;
  }

  // ---------------------------------------------------------------- the profile format

  /** One profile of a credentials text with the layout of its two key lines, followed by `gap` empty lines. */
  datatype Profile = Profile(name: string, keys: Keys, gap: nat, accessLayout: Layout, secretLayout: Layout)

  predicate PlainName(name: string) {
    name != "" && '[' !in name && ']' !in name && ' ' !in name && OneLine(name)
  }

  predicate PlainValue(v: string) {
    && v != "" && Unquotable(v) && OneLine(v) && !HasBrackets(v) && !StsLine(v)
  }

  predicate PlainProfile(p: Profile) {
    && PlainName(p.name)
    && PlainValue(p.keys.access)
    && PlainValue(p.keys.secret)
    && !HasWord(p.keys.secret, ACCESS_KEY)
    && PlainLayout(p.accessLayout) && PlainLayout(p.secretLayout)
  }

  predicate PlainProfiles(ps: seq<Profile>) {
    && (forall i :: 0 <= i < |ps| ==> PlainProfile(ps[i]))
    && (forall i, j :: 0 <= i < j < |ps| ==> ps[i].name != ps[j].name)
  }

  function Header(p: Profile): string {
    "[" + p.name + "]"
  }

  function AccessLine(p: Profile): string {
    Line(ACCESS_KEY, p.accessLayout, p.keys.access)
  }

  function SecretLine(p: Profile): string {
    Line(SECRET_KEY, p.secretLayout, p.keys.secret)
  }

  function Blank(n: nat): seq<string> {
    if n == 0 then [] else [""] + Blank(n - 1)
  }

  function ProfileLines(ps: seq<Profile>): seq<string> {
    if ps == [] then []
    else [Header(ps[0]), AccessLine(ps[0]), SecretLine(ps[0])] + Blank(ps[0].gap) + ProfileLines(ps[1..])
  }

  function Print(ps: seq<Profile>): string {
    if ps == [] then "" else Unlines(ProfileLines(ps))
  }

  // ---------------------------------------------------------------- single lines

  lemma FieldNames()
    ensures IsWord(ACCESS_KEY) && IsWord(SECRET_KEY) && IsWord(ROLE_ARN)
    ensures IsWord(TOKEN_FILE) && IsWord(STS_ENDPOINTS)
    ensures |ACCESS_KEY| == 17 && |SECRET_KEY| == 21 && |ROLE_ARN| == 8
    ensures |TOKEN_FILE| == 23 && |STS_ENDPOINTS| == 22
  {
  }

  lemma AccessLineIs(p: Profile)
    requires PlainProfile(p)
    ensures var l := AccessLine(p);
      && l != "" && !IsSpace(l[0]) && !HasBrackets(l) && !StsLine(l) && OneLine(l)
      && HasWord(l, ACCESS_KEY) && KeyValue(ACCESS_KEY, l) == Ok(p.keys.access)
  {
    AccessKeyLine(p.accessLayout, p.keys.access);
  }

  lemma AccessKeyLine(layout: Layout, v: string)
    requires Unquotable(v) && OneLine(v) && !HasBrackets(v) && !StsLine(v) && PlainLayout(layout)
    ensures var l := Line(ACCESS_KEY, layout, v);
      && l != "" && !IsSpace(l[0]) && !HasBrackets(l) && !StsLine(l) && OneLine(l)
      && HasWord(l, ACCESS_KEY) && KeyValue(ACCESS_KEY, l) == if v == "" then Err(ACCESS_KEY) else Ok(v)
  {
    FieldNames();
    StartsSolid(ACCESS_KEY, layout, v);
    LineBrackets(ACCESS_KEY, layout, v);
    LineWords(ACCESS_KEY, layout, v, ROLE_ARN);
    LineWords(ACCESS_KEY, layout, v, TOKEN_FILE);
    LineWords(ACCESS_KEY, layout, v, STS_ENDPOINTS);
    LineWords(ACCESS_KEY, layout, v, ACCESS_KEY);
    LineValue(ACCESS_KEY, layout, v);
    hide HasWord, HasBrackets, KeyValue, Line;
  }

  lemma StartsSolid(key: string, layout: Layout, v: string)
    requires IsWord(key)
    ensures Line(key, layout, v) != "" && !IsSpace(Line(key, layout, v)[0])
  {
    assert Line(key, layout, v)[0] == key[0] && WordChar(key[0]);
  }

  lemma SecretKeyLine(layout: Layout, v: string)
    requires Unquotable(v) && OneLine(v) && !HasBrackets(v) && !StsLine(v) && PlainLayout(layout) && !HasWord(v, ACCESS_KEY)
    ensures var l := Line(SECRET_KEY, layout, v);
      && l != "" && !IsSpace(l[0]) && !HasBrackets(l) && !StsLine(l) && OneLine(l)
      && !HasWord(l, ACCESS_KEY) && HasWord(l, SECRET_KEY)
      && KeyValue(SECRET_KEY, l) == if v == "" then Err(SECRET_KEY) else Ok(v)
  {
    FieldNames();
    StartsSolid(SECRET_KEY, layout, v);
    LineBrackets(SECRET_KEY, layout, v);
    LineWords(SECRET_KEY, layout, v, ROLE_ARN);
    LineWords(SECRET_KEY, layout, v, TOKEN_FILE);
    LineWords(SECRET_KEY, layout, v, STS_ENDPOINTS);
    LineWords(SECRET_KEY, layout, v, ACCESS_KEY);
    LineWords(SECRET_KEY, layout, v, SECRET_KEY);
    LineValue(SECRET_KEY, layout, v);
    hide HasWord, HasBrackets, KeyValue, Line;
  }

  lemma SecretLineIs(p: Profile)
    requires PlainProfile(p)
    ensures var l := SecretLine(p);
      && l != "" && !IsSpace(l[0]) && !HasBrackets(l) && !StsLine(l) && OneLine(l)
      && !HasWord(l, ACCESS_KEY) && HasWord(l, SECRET_KEY) && KeyValue(SECRET_KEY, l) == Ok(p.keys.secret)
  {
    SecretKeyLine(p.secretLayout, p.keys.secret);
  }

  lemma HeaderIs(p: Profile)
    requires PlainName(p.name)
    ensures Header(p) != "" && OneLine(Header(p)) && HasBrackets(Header(p))
    ensures HeaderName(Header(p)) == p.name
  {
    var l := Header(p);
    assert l[0] == '[' && l[|l| - 1] == ']';
    assert ' ' !in l;
    RemoveAbsent(l, ' ');
    HeaderBracketsGo(p.name);
  }

  lemma HeaderBracketsGo(n: string)
    requires '[' !in n && ']' !in n
    ensures Remove(Remove("[" + n + "]", '['), ']') == n
  {
    var t := n + "]";
    assert ("[" + n + "]")[1..] == t;
    assert '[' !in t;
    RemoveAbsent(t, '[');
    assert Remove("[" + n + "]", '[') == t;
    RemoveConcat(n, "]", ']');
    RemoveAbsent(n, ']');
  }

  lemma {:induction false} BlankLines(n: nat)
    ensures forall i :: 0 <= i < |Blank(n)| ==> Blank(n)[i] == ""
  {
    if n > 0 {
      BlankLines(n - 1);
    }
  }

  predicate AllOneLine(ls: seq<string>) {
    forall i :: 0 <= i < |ls| ==> OneLine(ls[i])
  }

  lemma OneLineSection(h: string, a: string, b: string, n: nat, rest: seq<string>)
    requires OneLine(h) && OneLine(a) && OneLine(b) && AllOneLine(rest)
    ensures AllOneLine([h, a, b] + Blank(n) + rest)
  {
    BlankLines(n);
    assert OneLine("");
  }

  lemma ProfileIsOneLine(p: Profile)
    requires PlainProfile(p)
    ensures OneLine(Header(p)) && OneLine(AccessLine(p)) && OneLine(SecretLine(p))
  {
    HeaderIs(p);
    AccessLineIs(p);
    SecretLineIs(p);
  }

  lemma {:induction false} PrintedLinesArePlain(ps: seq<Profile>)
    requires forall i :: 0 <= i < |ps| ==> PlainProfile(ps[i])
    ensures AllOneLine(ProfileLines(ps))
  {
    if ps != [] {
      ProfileIsOneLine(ps[0]);
      PrintedLinesArePlain(ps[1..]);
      OneLineSection(Header(ps[0]), AccessLine(ps[0]), SecretLine(ps[0]), ps[0].gap, ProfileLines(ps[1..]));
    }
  }

  /** No printed line holds a line break, so splitting the printed text gives the lines back. */
  lemma {:induction false} LinesOfPrint(ps: seq<Profile>)
    requires forall i :: 0 <= i < |ps| ==> PlainProfile(ps[i])
    ensures ps != [] ==> Lines(Print(ps)) == ProfileLines(ps)
  {
    if ps != [] {
      PrintedLinesArePlain(ps);
      LinesOfUnlines(ProfileLines(ps));
    }
  }

  // ---------------------------------------------------------------- controller parser on printed profiles

  /** Blank lines change nothing for the controller's parser. */
  lemma {:induction false} GapIsSkipped(n: nat, rest: seq<string>, want: string, profile: string, k: Keys)
    ensures Scan(Blank(n) + rest, want, profile, k) == Scan(rest, want, profile, k)
    ensures StsBeforeHeader(Blank(n) + rest) == StsBeforeHeader(rest)
    ensures KeysBeforeHeader(Blank(n) + rest, k) == KeysBeforeHeader(rest, k)
  {
    hide HasWord, HasBrackets, HeaderName, KeyLine, StsLine;
    if n == 0 {
      assert Blank(n) + rest == rest;
    } else {
      GapIsSkipped(n - 1, rest, want, profile, k);
      assert (Blank(n) + rest)[1..] == Blank(n - 1) + rest;
      assert (Blank(n) + rest)[0] == "";
    }
  }

  /** Nor for the one in pkg/utils. */
  lemma {:induction false} UtilsGapIsSkipped(n: nat, rest: seq<string>, want: string, k: Keys)
    ensures UtilsKeys(Blank(n) + rest, k) == UtilsKeys(rest, k)
    ensures UtilsScan(Blank(n) + rest, want) == UtilsScan(rest, want)
  {
    hide HasWord, HasBrackets, HeaderName, KeyLine, StsLine;
    if n == 0 {
      assert Blank(n) + rest == rest;
    } else {
      UtilsGapIsSkipped(n - 1, rest, want, k);
      assert (Blank(n) + rest)[1..] == Blank(n - 1) + rest;
      assert (Blank(n) + rest)[0] == "";
    }
  }

  /** A profile's section ends at the next printed header. */
  lemma SectionEnds(ps: seq<Profile>, k: Keys)
    requires forall i :: 0 <= i < |ps| ==> PlainProfile(ps[i])
    ensures !StsBeforeHeader(ProfileLines(ps))
    ensures KeysBeforeHeader(ProfileLines(ps), k) == Ok(k)
  {
    if ps != [] {
      HeaderIs(ps[0]);
    }
  }

  lemma SectionOf(p: Profile, rest: seq<Profile>, k: Keys)
    requires PlainProfile(p)
    requires forall i :: 0 <= i < |rest| ==> PlainProfile(rest[i])
    ensures var ls := [AccessLine(p), SecretLine(p)] + Blank(p.gap) + ProfileLines(rest);
      !StsBeforeHeader(ls) && KeysBeforeHeader(ls, k) == Ok(p.keys)
  {
    var tail := Blank(p.gap) + ProfileLines(rest);
    var ls := [AccessLine(p), SecretLine(p)] + Blank(p.gap) + ProfileLines(rest);
    assert ls[1..] == [SecretLine(p)] + tail;
    assert ls[1..][1..] == tail;
    AccessLineIs(p);
    SecretLineIs(p);
    GapIsSkipped(p.gap, ProfileLines(rest), "", "", p.keys);
    SectionEnds(rest, p.keys);
    assert !StsBeforeHeader(ls[1..]);
    assert KeysBeforeHeader(ls[1..], Keys(p.keys.access, k.secret)) == Ok(p.keys);
  }

  lemma ScanSkips(l: string, rest: seq<string>, want: string, profile: string, k: Keys)
    requires !IsHeaderOf(l, want)
    ensures Scan([l] + rest, want, profile, k) == Scan(rest, want, profile, k)
  {
    assert ([l] + rest)[1..] == rest;
  }

  /** The lines of a profile, header first. */
  lemma ProfileLinesOf(p: Profile, rest: seq<Profile>)
    ensures ProfileLines([p] + rest) == [Header(p)] + ([AccessLine(p), SecretLine(p)] + Blank(p.gap) + ProfileLines(rest))
  {
    assert ([p] + rest)[1..] == rest;
  }

  lemma ScanSkipsSection(a: string, b: string, n: nat, rest: seq<string>, want: string, profile: string, k: Keys)
    requires !HasBrackets(a) && !HasBrackets(b)
    ensures Scan([a, b] + Blank(n) + rest, want, profile, k) == Scan(rest, want, profile, k)
    ensures UtilsScan([a, b] + Blank(n) + rest, want) == UtilsScan(rest, want)
  {
    var tail := Blank(n) + rest;
    ScanSkips(a, [b] + tail, want, profile, k);
    ScanSkips(b, tail, want, profile, k);
    NoHeaderWithoutBrackets(a, want);
    NoHeaderWithoutBrackets(b, want);
    UtilsScanSkips(a, [b] + tail, want);
    UtilsScanSkips(b, tail, want);
    GapIsSkipped(n, rest, want, profile, k);
    UtilsGapIsSkipped(n, rest, want, k);
    assert [a, b] + Blank(n) + rest == [a] + ([b] + tail);
  }

  /** The body of a profile holds no header. */
  lemma ScanBody(p: Profile, rest: seq<Profile>, want: string, profile: string, k: Keys)
    requires PlainProfile(p)
    ensures var body := [AccessLine(p), SecretLine(p)] + Blank(p.gap) + ProfileLines(rest);
      && Scan(body, want, profile, k) == Scan(ProfileLines(rest), want, profile, k)
      && UtilsScan(body, want) == UtilsScan(ProfileLines(rest), want)
  {
    AccessLineIs(p);
    SecretLineIs(p);
    ScanSkipsSection(AccessLine(p), SecretLine(p), p.gap, ProfileLines(rest), want, profile, k);
  }

  /** Scanning past a whole printed profile. */
  lemma ScanProfile(p: Profile, rest: seq<Profile>, want: string, profile: string, k: Keys)
    requires PlainProfile(p)
    requires forall i :: 0 <= i < |rest| ==> PlainProfile(rest[i])
    ensures Scan(ProfileLines([p] + rest), want, profile, k)
         == if p.name == want then Scan(ProfileLines(rest), want, want, p.keys)
            else Scan(ProfileLines(rest), want, profile, k)
  {
    var body := [AccessLine(p), SecretLine(p)] + Blank(p.gap) + ProfileLines(rest);
    ProfileLinesOf(p, rest);
    HeaderIs(p);
    if p.name == want {
      assert ([Header(p)] + body)[1..] == body;
      SectionOf(p, rest, k);
      ScanBody(p, rest, want, want, p.keys);
    } else {
      ScanSkips(Header(p), body, want, profile, k);
      ScanBody(p, rest, want, profile, k);
    }
  }

  lemma {:induction false} ScanAbsent(ps: seq<Profile>, want: string, profile: string, k: Keys)
    requires forall i :: 0 <= i < |ps| ==> PlainProfile(ps[i]) && ps[i].name != want
    ensures Scan(ProfileLines(ps), want, profile, k) == Finish(profile, k)
  {
    if ps != [] {
      assert ps == [ps[0]] + ps[1..];
      ScanProfile(ps[0], ps[1..], want, profile, k);
      ScanAbsent(ps[1..], want, profile, k);
    }
  }

  lemma {:induction false} ScanPresent(ps: seq<Profile>, at: nat, profile: string, k: Keys)
    requires PlainProfiles(ps) && at < |ps|
    ensures Scan(ProfileLines(ps), ps[at].name, profile, k) == Ok(ps[at].keys)
  {
    var want := ps[at].name;
    assert ps == [ps[0]] + ps[1..];
    ScanProfile(ps[0], ps[1..], want, profile, k);
    if at == 0 {
      ScanAbsent(ps[1..], want, want, ps[0].keys);
    } else {
      ScanPresent(ps[1..], at - 1, profile, k);
    }
  }

  // ---------------------------------------------------------------- utils parser on printed profiles

  /** Trimming keeps a stretch of the text. */
  lemma {:induction false} TrimIsSlice(s: string, drop: char -> bool) returns (i: nat, j: nat)
    ensures i <= j <= |s| && Trim(s, drop) == s[i..j]
  {
    i := TrimLeftIsSlice(s, drop);
    var t := TrimLeft(s, drop);
    var n := TrimRightIsSlice(t, drop);
    j := i + n;
    assert t[..n] == s[i..j];
  }

  lemma {:induction false} TrimLeftIsSlice(s: string, drop: char -> bool) returns (i: nat)
    ensures i <= |s| && TrimLeft(s, drop) == s[i..]
  {
    i := 0;
    if s != "" && drop(s[0]) {
      i := TrimLeftIsSlice(s[1..], drop);
      assert s[1..][i..] == s[i + 1..];
      i := i + 1;
    }
  }

  lemma {:induction false} TrimRightIsSlice(s: string, drop: char -> bool) returns (n: nat)
    ensures n <= |s| && TrimRight(s, drop) == s[..n]
  {
    n := |s|;
    if s != "" && drop(s[|s| - 1]) {
      n := TrimRightIsSlice(s[..|s| - 1], drop);
      assert s[..|s| - 1][..n] == s[..n];
    }
  }

  lemma NoHeaderWithoutBrackets(line: string, want: string)
    requires !HasBrackets(line)
    ensures !IsUtilsHeaderOf(line, want)
  {
    var i, j := TrimIsSlice(line, IsSpace);
    assert forall m :: 0 <= m < j - i ==> TrimSpace(line)[m] == line[i + m];
  }

  /** A line that starts with a solid character is not blank. */
  lemma SolidIsNotBlank(line: string)
    requires line != "" && !IsSpace(line[0])
    ensures TrimSpace(line) != ""
  {
    assert TrimLeft(line, IsSpace) == line;
    SolidTrimRight(line);
  }

  lemma {:induction false} SolidTrimRight(s: string)
    requires s != "" && !IsSpace(s[0])
    ensures TrimRight(s, IsSpace) != ""
  {
    if IsSpace(s[|s| - 1]) {
      SolidTrimRight(s[..|s| - 1]);
    }
  }

  lemma UtilsHeaderIs(p: Profile)
    requires PlainName(p.name)
    ensures TrimSpace(Header(p)) == Header(p)
    ensures Trim(Header(p), HeaderTrim) == p.name
  {
    var l, n := Header(p), p.name;
    assert l[0] == '[' && l[|l| - 1] == ']';
    assert TrimSpace(l) == l;
    assert l[1..] == n + "]";
    assert n[0] in n && n[|n| - 1] in n;
    assert TrimLeft(n + "]", HeaderTrim) == n + "]";
    assert (n + "]")[..|n|] == n;
    assert TrimRight(n, HeaderTrim) == n;
  }

  /** Words of a header line are the words of the profile name. */
  lemma BracketedWords(n: string, k: string)
    requires IsWord(k)
    ensures HasWord("[" + n + "]", k) <==> HasWord(n, k)
  {
    var s := "[" + n + "]";
    if HasWord(s, k) {
      var i :| 0 <= i <= |s| - |k| && WordAt(s, k, i);
      WordInBrackets(n, k, i);
    }
    if HasWord(n, k) {
      var i :| 0 <= i <= |n| - |k| && WordAt(n, k, i);
      assert s[i + 1..i + 1 + |k|] == n[i..i + |k|];
      assert i > 0 ==> s[i] == n[i - 1];
      assert i + |k| < |n| ==> s[i + 1 + |k|] == n[i + |k|];
      assert WordAt(s, k, i + 1);
    }
  }

  lemma WordInBrackets(n: string, k: string, i: int)
    requires IsWord(k) && WordAt("[" + n + "]", k, i)
    ensures HasWord(n, k)
  {
    var s := "[" + n + "]";
    assert s[i..i + |k|][0] == s[i] && s[i..i + |k|][|k| - 1] == s[i + |k| - 1];
    assert s[0] == '[' && s[|s| - 1] == ']';
    assert 1 <= i && i + |k| <= |s| - 1;
    assert n[i - 1..i - 1 + |k|] == s[i..i + |k|];
    assert i > 1 ==> s[i - 1] == n[i - 2];
    assert i - 1 + |k| < |n| ==> s[i + |k|] == n[i - 1 + |k|];
    assert WordAt(n, k, i - 1);
  }

  /** The profile name contains the name of a key field as a word. */
  predicate KeyFieldName(name: string) {
    HasWord(name, ACCESS_KEY) || HasWord(name, SECRET_KEY)
  }

  /** The two key lines of a profile set both keys, whatever was read before. */
  lemma UtilsKeysOfBody(p: Profile, rest: seq<Profile>, k: Keys)
    requires PlainProfile(p)
    ensures UtilsKeys([AccessLine(p), SecretLine(p)] + Blank(p.gap) + ProfileLines(rest), k)
         == UtilsKeys(ProfileLines(rest), p.keys)
  {
    var tail := Blank(p.gap) + ProfileLines(rest);
    var ls := [AccessLine(p), SecretLine(p)] + Blank(p.gap) + ProfileLines(rest);
    assert ls[1..] == [SecretLine(p)] + tail;
    assert ls[1..][1..] == tail;
    AccessLineIs(p);
    SecretLineIs(p);
    SolidIsNotBlank(AccessLine(p));
    SolidIsNotBlank(SecretLine(p));
    UtilsGapIsSkipped(p.gap, ProfileLines(rest), "", p.keys);
    assert UtilsKeys(ls[1..], Keys(p.keys.access, k.secret)) == UtilsKeys(tail, p.keys);
  }

  /** A header ends the profile unless its name contains a key field name; then it is read as a key line. */
  lemma UtilsKeysAtHeader(ps: seq<Profile>, k: Keys)
    requires ps != [] && PlainProfile(ps[0])
    ensures UtilsKeys(ProfileLines(ps), k)
         == if KeyFieldName(ps[0].name) then UtilsKeys(ProfileLines(ps[1..]), ps[0].keys) else k
  {
    var p := ps[0];
    var ls := ProfileLines(ps);
    assert ls[1..] == [AccessLine(p), SecretLine(p)] + Blank(p.gap) + ProfileLines(ps[1..]);
    HeaderIs(p);
    UtilsHeaderIs(p);
    FieldNames();
    BracketedWords(p.name, ACCESS_KEY);
    BracketedWords(p.name, SECRET_KEY);
    UtilsKeysOfBody(p, ps[1..], k.(access := ValueOrEmpty(ACCESS_KEY, ls[0])));
    UtilsKeysOfBody(p, ps[1..], k.(secret := ValueOrEmpty(SECRET_KEY, ls[0])));
  }

  /** Index of the profile whose keys the utils parser reports when asked for profile `at`. */
  function ReportedProfile(ps: seq<Profile>, at: nat): (r: nat)
    requires at < |ps|
    ensures at <= r < |ps|
    decreases |ps| - at
  {
    if at + 1 < |ps| && KeyFieldName(ps[at + 1].name) then ReportedProfile(ps, at + 1) else at
  }

  lemma {:induction false} UtilsKeysChain(ps: seq<Profile>, at: nat)
    requires at < |ps|
    requires forall i :: 0 <= i < |ps| ==> PlainProfile(ps[i])
    ensures UtilsKeys(ProfileLines(ps[at + 1..]), ps[at].keys) == ps[ReportedProfile(ps, at)].keys
    decreases |ps| - at
  {
    if at + 1 < |ps| {
      UtilsKeysAtHeader(ps[at + 1..], ps[at].keys);
      assert ps[at + 1..][1..] == ps[at + 2..];
      if KeyFieldName(ps[at + 1].name) {
        UtilsKeysChain(ps, at + 1);
      }
    }
  }

  lemma UtilsScanSkips(l: string, rest: seq<string>, want: string)
    requires !IsUtilsHeaderOf(l, want)
    ensures UtilsScan([l] + rest, want) == UtilsScan(rest, want)
  {
    assert ([l] + rest)[1..] == rest;
  }

  lemma UtilsScanProfile(p: Profile, rest: seq<Profile>, want: string)
    requires PlainProfile(p)
    ensures UtilsScan(ProfileLines([p] + rest), want)
         == if p.name == want then UtilsFinish(want, UtilsKeys(ProfileLines(rest), p.keys))
            else UtilsScan(ProfileLines(rest), want)
  {
    var body := [AccessLine(p), SecretLine(p)] + Blank(p.gap) + ProfileLines(rest);
    ProfileLinesOf(p, rest);
    HeaderIs(p);
    UtilsHeaderIs(p);
    if p.name == want {
      assert ([Header(p)] + body)[1..] == body;
      UtilsKeysOfBody(p, rest, Keys("", ""));
    } else {
      UtilsScanSkips(Header(p), body, want);
      ScanBody(p, rest, want, "", p.keys);
    }
  }

  lemma {:induction false} UtilsScanAbsent(ps: seq<Profile>, want: string)
    requires forall i :: 0 <= i < |ps| ==> PlainProfile(ps[i]) && ps[i].name != want
    ensures UtilsScan(ProfileLines(ps), want) == None
  {
    if ps != [] {
      assert ps == [ps[0]] + ps[1..];
      UtilsScanProfile(ps[0], ps[1..], want);
      UtilsScanAbsent(ps[1..], want);
    }
  }

  lemma {:induction false} UtilsScanPresent(ps: seq<Profile>, at: nat, from: nat)
    requires PlainProfiles(ps) && from <= at < |ps|
    ensures UtilsScan(ProfileLines(ps[from..]), ps[at].name) == Some(ps[ReportedProfile(ps, at)].keys)
    decreases at - from
  {
    assert ps[from..] == [ps[from]] + ps[from + 1..];
    UtilsScanProfile(ps[from], ps[from + 1..], ps[at].name);
    if from == at {
      UtilsKeysChain(ps, at);
      assert PlainProfile(ps[ReportedProfile(ps, at)]) && PlainProfile(ps[at]);
    } else {
      UtilsScanPresent(ps, at, from + 1);
    }
  }

  // ---------------------------------------------------------------- headers with blanks

  predicate Blanks(s: string) {
    forall i :: 0 <= i < |s| ==> s[i] == ' '
  }

  lemma {:induction false} TrimLeftOver(a: string, s: string, drop: char -> bool)
    requires (forall i :: 0 <= i < |a| ==> drop(a[i])) && s != "" && !drop(s[0])
    ensures TrimLeft(a + s, drop) == s
  {
    if a == "" {
      assert a + s == s;
    } else {
      assert (a + s)[1..] == a[1..] + s;
      TrimLeftOver(a[1..], s, drop);
    }
  }

  lemma {:induction false} TrimRightOver(s: string, b: string, drop: char -> bool)
    requires (forall i :: 0 <= i < |b| ==> drop(b[i])) && s != "" && !drop(s[|s| - 1])
    ensures TrimRight(s + b, drop) == s
  {
    if b == "" {
      assert s + b == s;
    } else {
      assert (s + b)[..|s + b| - 1] == s + b[..|b| - 1];
      TrimRightOver(s, b[..|b| - 1], drop);
    }
  }

  lemma TrimAround(a: string, s: string, b: string, drop: char -> bool)
    requires (forall i :: 0 <= i < |a| ==> drop(a[i])) && (forall i :: 0 <= i < |b| ==> drop(b[i]))
    requires s != "" && !drop(s[0]) && !drop(s[|s| - 1])
    ensures Trim(a + (s + b), drop) == s
  {
    assert (s + b)[0] == s[0];
    TrimLeftOver(a, s + b, drop);
    TrimRightOver(s, b, drop);
  }

  lemma SpacedHeaderName(a: string, b: string, name: string, c: string, d: string)
    requires PlainName(name) && Blanks(a) && Blanks(b) && Blanks(c) && Blanks(d)
    ensures HeaderName(a + (("[" + b) + (name + (c + "]")) + d)) == name
  {
    assert ' ' !in "[" && ' ' !in "]";
    RemoveAround(a, ("[" + b) + (name + (c + "]")), d);
    BlanksInside("[", b, name, c, "]");
    HeaderBracketsGo(name);
    hide Remove;
  }

  lemma RemoveAround(a: string, s: string, d: string)
    requires Blanks(a) && Blanks(d)
    ensures Remove(a + (s + d), ' ') == Remove(s, ' ')
  {
    RemoveAll(a, ' ');
    RemoveAll(d, ' ');
    RemoveConcat(a, s + d, ' ');
    RemoveConcat(s, d, ' ');
    hide Remove;
  }

  lemma BlanksInside(x: string, b: string, n: string, c: string, y: string)
    requires Blanks(b) && Blanks(c) && ' ' !in x && ' ' !in n && ' ' !in y
    ensures Remove((x + b) + (n + (c + y)), ' ') == x + n + y
  {
    RemoveAround("", x, b);
    RemoveAround(c, y, "");
    RemoveAbsent(x, ' ');
    RemoveAbsent(n, ' ');
    RemoveAbsent(y, ' ');
    assert "" + (x + b) == x + b && c + (y + "") == c + y;
    hide Remove, Blanks;
    RemoveConcat(x + b, n + (c + y), ' ');
    RemoveConcat(n, c + y, ' ');
    Assoc(x, n, y);
  }

  /** Both parsers find a header with blanks inside and outside the brackets. */
  lemma SpacedHeader(a: string, b: string, name: string, c: string, d: string)
    requires PlainName(name) && Blanks(a) && Blanks(b) && Blanks(c) && Blanks(d)
    ensures var h := a + (("[" + b) + (name + (c + "]")) + d); IsHeaderOf(h, name) && IsUtilsHeaderOf(h, name)
  {
    SpacedHeaderName(a, b, name, c, d);
    var front, back := "[" + b, c + "]";
    var core := front + (name + back);
    var h := a + (core + d);
    assert core[0] == '[' && core[|core| - 1] == ']';
    assert h[|a|] == '[' && h[|a| + |core| - 1] == ']';
    TrimAround(a, core, d, IsSpace);
    assert name[0] in name && name[|name| - 1] in name;
    TrimAround(front, name, back, HeaderTrim);
    hide Trim, HeaderName;
  }

  // ---------------------------------------------------------------- main results

  /** Printing profiles and parsing one of them gives its two keys, wherever it stands. */
  lemma PrintThenParse(ps: seq<Profile>, at: nat)
    requires PlainProfiles(ps) && at < |ps|
    ensures ParseSpec(Print(ps), ps[at].name) == Ok(ps[at].keys)
  {
    LinesOfPrint(ps);
    ScanPresent(ps, at, "", Keys("", ""));
  }

  function FinishLine(r: Parsed, profile: string): Parsed {
    if r.Err? then r else Finish(profile, r.value)
  }

  /** The only line of a profile gave `v`, as access key or as secret key. */
  function OnlyKey(v: Result<string, string>, isAccess: bool, profile: string): Parsed {
    if v.Err? then Err(Failure(EmptyValue(v.error), Keys("", "")))
    else Finish(profile, if isAccess then Keys(v.value, "") else Keys("", v.value))
  }

  /** A text of one header and at most one key line. */
  lemma ScanOneLine(header: string, line: string, want: string)
    requires OneLine(header) && OneLine(line)
    requires IsHeaderOf(header, want) && IsUtilsHeaderOf(header, want) && line != "" && TrimSpace(line) != "" && want != ""
    requires !HasBrackets(line) && !StsLine(line)
    ensures ParseSpec(header + "\n" + line, want)
         == FinishLine(KeyLine(line, Keys("", "")), want)
    ensures UtilsScan(Lines(header + "\n" + line), want) == UtilsFinish(want, UtilsKeys([line], Keys("", "")))
    ensures ParseSpec(header, want) == Finish(want, Keys("", ""))
    ensures UtilsScan(Lines(header), want) == UtilsFinish(want, Keys("", ""))
  {
    LinesConcat(header, line);
    LinesOfOneLine(header);
    LinesOfOneLine(line);
    assert Lines(header + "\n" + line) == [header] + [line];
    hide Lines, Scan, UtilsScan, KeyLine, IsHeaderOf, IsUtilsHeaderOf, HasBrackets, StsLine, TrimSpace;
    ScanHeader(header, want);
    ScanHeaderAndLine(header, line, want);
  }

  lemma ScanHeader(header: string, want: string)
    requires IsHeaderOf(header, want) && IsUtilsHeaderOf(header, want)
    ensures Scan([header], want, "", Keys("", "")) == Finish(want, Keys("", ""))
    ensures UtilsScan([header], want) == UtilsFinish(want, Keys("", ""))
  {
    hide IsHeaderOf, IsUtilsHeaderOf;
    assert [header][1..] == [];
  }

  lemma ScanHeaderAndLine(header: string, line: string, want: string)
    requires IsHeaderOf(header, want) && IsUtilsHeaderOf(header, want)
    requires line != "" && !HasBrackets(line) && !StsLine(line)
    ensures Scan([header] + [line], want, "", Keys("", "")) == FinishLine(KeyLine(line, Keys("", "")), want)
    ensures UtilsScan([header] + [line], want) == UtilsFinish(want, UtilsKeys([line], Keys("", "")))
  {
    assert ([header] + [line])[1..] == [line];
    SectionOfLine(line, Keys("", ""));
    assert !IsHeaderOf(line, want);
    hide KeyLine, IsHeaderOf, IsUtilsHeaderOf, StsBeforeHeader, KeysBeforeHeader, UtilsKeys;
    if KeyLine(line, Keys("", "")).Ok? {
      var k := KeyLine(line, Keys("", "")).value;
      ScanSkips(line, [], want, want, k);
      assert [line] + [] == [line];
    }
  }

  lemma SectionOfLine(line: string, k: Keys)
    requires line != "" && !HasBrackets(line) && !StsLine(line)
    ensures !StsBeforeHeader([line]) && KeysBeforeHeader([line], k) == KeyLine(line, k)
  {
    hide HasBrackets, StsLine, KeyLine;
    assert [line][1..] == [];
  }

  /**
   What is missing is what the error names, and the key that was read comes with it; an empty value
   is an error of its own. The second parser has one error for all of these.
   */
  lemma IncompleteProfiles(name: string, layout: Layout, v: string)
    requires PlainName(name) && PlainValue(v) && !HasWord(v, ACCESS_KEY) && PlainLayout(layout)
    ensures var h := "[" + name + "]";
      && ParseSpec(h, name) == Err(Failure(NoCredentials, Keys("", "")))
      && ParseSpec(h + "\n" + Line("aws_access_key_id", layout, v), name) == Err(Failure(NoSecretKey, Keys(v, "")))
      && ParseSpec(h + "\n" + Line("aws_secret_access_key", layout, v), name) == Err(Failure(NoAccessKey, Keys("", v)))
      && ParseSpec(h + "\n" + Line("aws_access_key_id", layout, ""), name)
         == Err(Failure(EmptyValue("aws_access_key_id"), Keys("", "")))
      && ParseSpec(h + "\n" + Line("aws_secret_access_key", layout, ""), name)
         == Err(Failure(EmptyValue("aws_secret_access_key"), Keys("", "")))
      && UtilsScan(Lines(h), name) == None
      && UtilsScan(Lines(h + "\n" + Line("aws_access_key_id", layout, v)), name) == None
      && UtilsScan(Lines(h + "\n" + Line("aws_secret_access_key", layout, v)), name) == None
  {
    var h := "[" + name + "]";
    PlainHeader(name);
    EmptyIsInert();
    AccessKeyLine(layout, v);
    SecretKeyLine(layout, v);
    AccessKeyLine(layout, "");
    SecretKeyLine(layout, "");
    hide HasWord, HasBrackets, KeyValue, Line, StsLine, IsHeaderOf, IsUtilsHeaderOf, TrimSpace, OneLine, ParseSpec, Lines, IsSpace;
    IncompleteText(h, Line(ACCESS_KEY, layout, v), name);
    IncompleteText(h, Line(SECRET_KEY, layout, v), name);
    IncompleteText(h, Line(ACCESS_KEY, layout, ""), name);
    IncompleteText(h, Line(SECRET_KEY, layout, ""), name);
  }

  lemma EmptyIsInert()
    ensures Unquotable("") && OneLine("") && !HasBrackets("") && !StsLine("") && !HasWord("", ACCESS_KEY)
  {
    FieldsAreLong();
  }

  lemma PlainHeader(name: string)
    requires PlainName(name)
    ensures var h := "[" + name + "]"; IsHeaderOf(h, name) && IsUtilsHeaderOf(h, name) && OneLine(h)
  {
    var p := Profile(name, Keys("", ""), 0, TIGHT, TIGHT);
    HeaderIs(p);
    UtilsHeaderIs(p);
  }

  lemma IncompleteText(h: string, line: string, name: string)
    requires IsHeaderOf(h, name) && IsUtilsHeaderOf(h, name) && OneLine(h) && name != ""
    requires line != "" && !IsSpace(line[0]) && !HasBrackets(line) && !StsLine(line) && OneLine(line)
    ensures ParseSpec(h, name) == Finish(name, Keys("", "")) && UtilsScan(Lines(h), name) == None
    ensures HasWord(line, ACCESS_KEY) ==>
      && ParseSpec(h + "\n" + line, name) == OnlyKey(KeyValue(ACCESS_KEY, line), true, name)
      && UtilsScan(Lines(h + "\n" + line), name) == None
    ensures !HasWord(line, ACCESS_KEY) && HasWord(line, SECRET_KEY) ==>
      && ParseSpec(h + "\n" + line, name) == OnlyKey(KeyValue(SECRET_KEY, line), false, name)
      && UtilsScan(Lines(h + "\n" + line), name) == None
  {
    SolidIsNotBlank(line);
    ScanOneLine(h, line, name);
    assert [line][1..] == [];
    hide HasWord, HasBrackets, KeyValue, StsLine, IsHeaderOf, IsUtilsHeaderOf, TrimSpace, ParseSpec, Lines, Scan, IsSpace, UtilsScan;
  }

  /** Any one of the three STS fields makes the profile an STS profile: no keys and no error, whatever follows. */
  lemma StsFieldsSuffice(name: string, field: string, layout: Layout, v: string, rest: string)
    requires PlainName(name) && field in {"role_arn", "web_identity_token_file", "sts_regional_endpoints"}
    requires OneLine(v) && !HasBrackets(v) && PlainLayout(layout)
    ensures ParseSpec("[" + name + "]" + "\n" + (Line(field, layout, v) + "\n" + rest), name) == Ok(Keys("", ""))
  {
    var h, line := "[" + name + "]", Line(field, layout, v);
    FieldNames();
    PlainHeader(name);
    LineBrackets(field, layout, v);
    LineWords(field, layout, v, field);
    StartsSolid(field, layout, v);
    LinesConcat(h, line + "\n" + rest);
    LinesConcat(line, rest);
    LinesOfOneLine(h);
    LinesOfOneLine(line);
    assert StsLine(line);
    hide Line, HasWord, HasBrackets, StsLine, IsHeaderOf, Lines;
    assert Lines(h + "\n" + (line + "\n" + rest)) == [h] + ([line] + Lines(rest));
    StsBehindHeader(h, line, Lines(rest), name);
  }

  lemma StsBehindHeader(header: string, line: string, rest: seq<string>, want: string)
    requires IsHeaderOf(header, want) && line != "" && !HasBrackets(line) && StsLine(line)
    ensures Scan([header] + ([line] + rest), want, "", Keys("", "")) == Ok(Keys("", ""))
  {
    hide HasBrackets, StsLine, IsHeaderOf;
    assert ([header] + ([line] + rest))[1..] == [line] + rest;
  }

  /** Of two profiles of one name the controller's parser takes the second, the one in pkg/utils the first. */
  lemma SameNameTwice(p: Profile, q: Profile)
    requires PlainProfile(p) && PlainProfile(q) && p.name == q.name && !KeyFieldName(q.name)
    ensures ParseSpec(Print([p, q]), p.name) == Ok(q.keys)
    ensures UtilsScan(Lines(Print([p, q])), p.name) == Some(p.keys)
  {
    var ps := [p, q];
    LinesOfPrint(ps);
    assert ps == [p] + [q] && [q] == [q] + [];
    ScanProfile(p, [q], p.name, "", Keys("", ""));
    ScanProfile(q, [], p.name, p.name, p.keys);
    UtilsScanProfile(p, [q], p.name);
    UtilsKeysAtHeader([q], p.keys);
    hide ProfileLines, KeyFieldName, PlainValue, HasWord;
    assert ProfileLines([]) == [] by { NoLines(); }
  }

  lemma NoLines()
    ensures ProfileLines([]) == []
  {
  }

  /** A profile that was not printed is reported as missing by both parsers. */
  lemma PrintThenParseAbsent(ps: seq<Profile>, want: string)
    requires forall i :: 0 <= i < |ps| ==> PlainProfile(ps[i]) && ps[i].name != want
    ensures ParseSpec(Print(ps), want) == Err(Failure(NoProfile, Keys("", "")))
    ensures UtilsScan(Lines(Print(ps)), want) == None
  {
    if ps == [] {
      ScanSkips("", [], want, "", Keys("", ""));
      UtilsScanSkips("", [], want);
      assert Lines(Print(ps)) == [""] + [];
    } else {
      LinesOfPrint(ps);
      ScanAbsent(ps, want, "", Keys("", ""));
      UtilsScanAbsent(ps, want);
    }
  }

  /** The pkg/utils parser reports the profile `ReportedProfile` names, on every printed text. */
  lemma PrintThenParseUtils(ps: seq<Profile>, at: nat)
    requires PlainProfiles(ps) && at < |ps|
    ensures UtilsScan(Lines(Print(ps)), ps[at].name) == Some(ps[ReportedProfile(ps, at)].keys)
  {
    LinesOfPrint(ps);
    assert ps[0..] == ps;
    UtilsScanPresent(ps, at, 0);
  }

  /**
   The two parsers agree on profile `at` exactly when the profile the utils parser ends at
   carries the same keys, which is certain when no key field name occurs in the next
   profile's name.
   */
  lemma ParsersAgree(ps: seq<Profile>, at: nat)
    requires PlainProfiles(ps) && at < |ps|
    ensures ReportedProfile(ps, at) == at <==> (at + 1 == |ps| || !KeyFieldName(ps[at + 1].name))
    ensures (UtilsScan(Lines(Print(ps)), ps[at].name) == Some(ps[at].keys)
             && ParseSpec(Print(ps), ps[at].name) == Ok(ps[at].keys))
      <==> ps[ReportedProfile(ps, at)].keys == ps[at].keys
  {
    PrintThenParse(ps, at);
    PrintThenParseUtils(ps, at);
  }

  /** A profile named like a key field hides the one printed before it from the utils parser only. */
  lemma ParsersDisagree(p: Profile, q: Profile)
    requires PlainProfile(p) && PlainProfile(q) && p.name != q.name
    requires KeyFieldName(q.name)
    ensures ParseSpec(Print([p, q]), p.name) == Ok(p.keys)
    ensures UtilsScan(Lines(Print([p, q])), p.name) == Some(q.keys)
  {
    var ps := [p, q];
    PrintThenParse(ps, 0);
    PrintThenParseUtils(ps, 0);
    assert ReportedProfile(ps, 1) == 1;
  }

  lemma ShortValueIsPlain(c: char)
    requires WordChar(c)
    ensures PlainValue([c]) && !HasWord([c], ACCESS_KEY)
  {
    FieldsAreLong();
    NoLongWord(c, ACCESS_KEY);
    NoLongWord(c, ROLE_ARN);
    NoLongWord(c, TOKEN_FILE);
    NoLongWord(c, STS_ENDPOINTS);
    hide HasWord;
  }

  lemma NoLongWord(c: char, k: string)
    requires |k| > 1
    ensures !HasWord([c], k)
  {
  }

  lemma FieldsAreLong()
    ensures |ACCESS_KEY| > 1 && |ROLE_ARN| > 1 && |TOKEN_FILE| > 1 && |STS_ENDPOINTS| > 1
  {
  }

  lemma KeyFieldIsPlainName()
    ensures PlainName(ACCESS_KEY) && KeyFieldName(ACCESS_KEY) && ACCESS_KEY != "default"
  {
    assert |ACCESS_KEY| == 17 && |"default"| == 7;
    assert WordAt(ACCESS_KEY, ACCESS_KEY, 0);
  }

  /** Two profiles on which the parsers differ: the second one is named like the access key field. */
  lemma DisagreeingProfiles()
    ensures var ps := [Profile("default", Keys("a", "b"), 0, TIGHT, TIGHT), Profile(ACCESS_KEY, Keys("c", "d"), 0, TIGHT, TIGHT)];
      && ParseSpec(Print(ps), "default") == Ok(Keys("a", "b"))
      && UtilsScan(Lines(Print(ps)), "default") == Some(Keys("c", "d"))
  {
    KeyFieldIsPlainName();
    ShortValueIsPlain('a');
    ShortValueIsPlain('b');
    ShortValueIsPlain('c');
    ShortValueIsPlain('d');
    assert PlainName("default");
    hide PlainName, PlainValue, KeyFieldName, HasWord, ParseSpec, UtilsScan;
    ParsersDisagree(Profile("default", Keys("a", "b"), 0, TIGHT, TIGHT), Profile(ACCESS_KEY, Keys("c", "d"), 0, TIGHT, TIGHT));
  }
}
