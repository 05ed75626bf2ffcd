/**
 The Azure STS secret: printed from subscription, tenant and client ids, patched with a
 resource group by the backup storage location reconciler, parsed line by line.
 */
module AzureSecret {

  import opened Wrappers
  import opened Text

  const STORAGE_KEY := "AZURE_STORAGE_ACCOUNT_ACCESS_KEY"
  const SUBSCRIPTION := "AZURE_SUBSCRIPTION_ID"
  const CLIENT := "AZURE_CLIENT_ID"
  const CLIENT_SECRET := "AZURE_CLIENT_SECRET"
  const RESOURCE_GROUP := "AZURE_RESOURCE_GROUP"
  const TENANT := "AZURE_TENANT_ID"
  const CLOUD_NAME := "AZURE_CLOUD_NAME"
  const CLOUD_VALUE := "AzurePublicCloud"

  datatype Field = StorageKey | Subscription | Client | ClientSecret | ResourceGroup | Tenant

  function FieldName(f: Field): string {
    match f
    case StorageKey => STORAGE_KEY
    case Subscription => SUBSCRIPTION
    case Client => CLIENT
    case ClientSecret => CLIENT_SECRET
    case ResourceGroup => RESOURCE_GROUP
    case Tenant => TENANT
  }

  datatype Credentials = Credentials(storageKey: string, subscription: string, client: string,
                                     clientSecret: string, resourceGroup: string, tenant: string)

  const NONE := Credentials("", "", "", "", "", "")

  function Set(c: Credentials, f: Field, v: string): Credentials {
    match f
    case StorageKey => c.(storageKey := v)
    case Subscription => c.(subscription := v)
    case Client => c.(client := v)
    case ClientSecret => c.(clientSecret := v)
    case ResourceGroup => c.(resourceGroup := v)
    case Tenant => c.(tenant := v)
  }

  // ---------------------------------------------------------------- parser

  /** The first field, in the order of the parser's switch, whose name is a word of the line. */
  function FieldOf(line: string): Option<Field> {
    if line == "" || HasBrackets(line) then None
    else if HasWord(line, STORAGE_KEY) then Some(StorageKey)
    else if HasWord(line, SUBSCRIPTION) then Some(Subscription)
    else if HasWord(line, CLIENT) then Some(Client)
    else if HasWord(line, CLIENT_SECRET) then Some(ClientSecret)
    else if HasWord(line, RESOURCE_GROUP) then Some(ResourceGroup)
    else if HasWord(line, TENANT) then Some(Tenant)
    else None
  }

  function ReadLine(line: string, c: Credentials): Result<Credentials, string> {
    match FieldOf(line)
    case None => Ok(c)
    case Some(f) =>
      match KeyValue(FieldName(f), line)
      case Err(key) => Err(key)
      case Ok(v) => Ok(Set(c, f, v))
  }

  function ReadLines(ls: seq<string>, c: Credentials): Result<Credentials, string> {
    if ls == [] then Ok(c)
    else match ReadLine(ls[0], c)
      case Err(key) => Err(key)
      case Ok(c') => ReadLines(ls[1..], c')
  }

  /** `parseAzureSecret`. */
  method ParseAzureSecret(text: string) returns (r: Result<Credentials, string>)
    ensures r == ReadLines(Lines(text), NONE)
  {
    hide HasWord, HasBrackets, KeyValue;
    var c := NONE;
    var lines := Lines(text);
    var i := 0;
    while i < |lines|
      invariant 0 <= i <= |lines|
      invariant ReadLines(lines, NONE) == ReadLines(lines[i..], c)
    {
      assert lines[i..][0] == lines[i] && lines[i..][1..] == lines[i + 1..];
      var line := ParseAzureLine(lines[i], c);
      if line.Err? {
        return line;
      }
      c := line.value;
      i := i + 1;
    }
    return Ok(c);
  }

  /** The switch over the fields of one line. */
  method ParseAzureLine(line: string, from: Credentials) returns (r: Result<Credentials, string>)
    ensures r == ReadLine(line, from)
  {
    hide HasWord, HasBrackets, KeyValue;
    if line == "" || HasBrackets(line) {
      return Ok(from);
    }
    var matchedStorageKey := HasWord(line, STORAGE_KEY);
    var matchedSubscription := HasWord(line, SUBSCRIPTION);
    var matchedTenant := HasWord(line, TENANT);
    var matchedClient := HasWord(line, CLIENT);
    var matchedClientSecret := HasWord(line, CLIENT_SECRET);
    var matchedResourceGroup := HasWord(line, RESOURCE_GROUP);
    var f;
    if matchedStorageKey {
      f := StorageKey;
    } else if matchedSubscription {
      f := Subscription;
    } else if matchedClient {
      f := Client;
    } else if matchedClientSecret {
      f := ClientSecret;
    } else if matchedResourceGroup {
      f := ResourceGroup;
    } else if matchedTenant {
      f := Tenant;
    } else {
      return Ok(from);
    }
    var v := KeyValue(FieldName(f), line);
    if v.Err? {
      return Err(v.error);
    }
    return Ok(Set(from, f, v.value));
  }

  // ---------------------------------------------------------------- printer and patch

  function FieldLine(f: Field, v: string): string {
    FieldName(f) + "=" + v
  }

  const CLOUD_LINE := CLOUD_NAME + "=" + CLOUD_VALUE

  function PrintedLines(subscription: string, tenant: string, client: string): seq<string> {
    ["", FieldLine(Subscription, subscription), FieldLine(Tenant, tenant), FieldLine(Client, client), CLOUD_LINE]
  }

  /** Lines, each closed by a line break. */
  function Terminated(ls: seq<string>): string {
    if ls == [] then "" else ls[0] + "\n" + Terminated(ls[1..])
  }

  function Print(subscription: string, tenant: string, client: string): string {
    Terminated(PrintedLines(subscription, tenant, client))
  }

  const GROUP_MARK := RESOURCE_GROUP + "="

  predicate IsSts(text: string) {
    Contains(text, CLIENT) && !Contains(text, CLIENT_SECRET)
  }

  /** `patchAzureSecretWithResourceGroup` on the text; an empty group means that none is configured. */
  function PatchGroup(text: string, group: string): string {
    if !IsSts(text) || Contains(text, GROUP_MARK) || group == "" then text
    else (if HasSuffix(text, "\n") then text else text + "\n") + (GROUP_MARK + group + "\n")
  }

  /** The patch is idempotent on every text, and the first group wins. */
  lemma PatchTwice(text: string, first: string, second: string)
    ensures PatchGroup(PatchGroup(text, first), second)
         == if PatchGroup(text, first) != text then PatchGroup(text, first) else PatchGroup(text, second)
  {
    var p := PatchGroup(text, first);
    if p != text {
      var front := if HasSuffix(text, "\n") then text else text + "\n";
      Assoc(front, GROUP_MARK, first + "\n");
      Assoc(GROUP_MARK, first, "\n");
      ContainsMiddle(front, GROUP_MARK, first + "\n");
    }
  }

  /**
   On every text: a patch that is due adds one closed line behind the others, closing the last one if
   need be; a patch that is not due changes nothing.
   */
  lemma PatchSpelledOut(text: string, group: string)
    ensures PatchGroup(text, group)
         == if && group != "" && Contains(text, "AZURE_CLIENT_ID") && !Contains(text, "AZURE_CLIENT_SECRET")
               && !Contains(text, "AZURE_RESOURCE_GROUP=")
            then text + (if text[|text| - 1..] == "\n" then "" else "\n") + ("AZURE_RESOURCE_GROUP=" + group + "\n")
            else text
  {
    assert GROUP_MARK == "AZURE_RESOURCE_GROUP=";
    assert |CLIENT| == 15;
    hide At;
    assert text + "" == text;
  }

  // ---------------------------------------------------------------- single lines

  predicate NoFieldWord(v: string) {
    forall f :: !HasWord(v, FieldName(f))
  }

  /** A value that can be printed on a line of its own and read back. */
  predicate PlainValue(v: string) {
    v != "" && Unquotable(v) && OneLine(v) && !HasBrackets(v) && NoFieldWord(v)
  }

  lemma NamesAreWords(f: Field)
    ensures IsWord(FieldName(f)) && OneLine(FieldName(f))
  {
    LongNamesAreWords();
    ShortNamesAreWords();
    hide IsWord;
    WordIsOneLine(FieldName(f));
  }

  lemma WordIsOneLine(k: string)
    requires IsWord(k)
    ensures OneLine(k)
  {
    assert forall c :: c in k ==> WordChar(c);
  }

  lemma LongNamesAreWords()
    ensures IsWord(STORAGE_KEY) && IsWord(RESOURCE_GROUP)
  {
  }

  lemma ShortNamesAreWords()
    ensures IsWord(SUBSCRIPTION) && IsWord(TENANT) && IsWord(CLIENT) && IsWord(CLIENT_SECRET)
  {
  }

  lemma NamesDiffer(f: Field, g: Field)
    requires f != g
    ensures FieldName(f) != FieldName(g)
  {
    assert STORAGE_KEY[6] == 'S' && STORAGE_KEY[7] == 'T';
    assert SUBSCRIPTION[6] == 'S' && SUBSCRIPTION[7] == 'U';
    assert CLIENT[6] == 'C' && |CLIENT| == 15;
    assert CLIENT_SECRET[6] == 'C' && |CLIENT_SECRET| == 19;
    assert RESOURCE_GROUP[6] == 'R' && TENANT[6] == 'T';
  }

  lemma LaidOutWords(f: Field, l: Layout, v: string, g: Field)
    requires NoFieldWord(v) && PlainLayout(l)
    ensures HasWord(Line(FieldName(f), l, v), FieldName(g)) <==> g == f
  {
    NamesAreWords(f);
    NamesAreWords(g);
    if g != f {
      NamesDiffer(g, f);
    }
    hide HasWord, FieldName, Line;
    LineWords(FieldName(f), l, v, FieldName(g));
  }

  /** A line with the name of a field and any layout sets that field, or fails on an empty value. */
  lemma LaidOutReads(f: Field, l: Layout, v: string, c: Credentials)
    requires (v == "" || PlainValue(v)) && PlainLayout(l)
    ensures ReadLine(Line(FieldName(f), l, v), c) == if v == "" then Err(FieldName(f)) else Ok(Set(c, f, v))
    ensures OneLine(Line(FieldName(f), l, v))
  {
    if v == "" {
      EmptyHasNoWord();
    }
    NamesAreWords(f);
    LineBrackets(FieldName(f), l, v);
    forall g ensures HasWord(Line(FieldName(f), l, v), FieldName(g)) <==> g == f {
      LaidOutWords(f, l, v, g);
    }
    LineValue(FieldName(f), l, v);
    assert Line(FieldName(f), l, v) != "";
    FieldOfWords(Line(FieldName(f), l, v), f);
    hide HasWord, HasBrackets, KeyValue, FieldName, Line, FieldOf;
  }

  lemma EmptyHasNoWord()
    ensures NoFieldWord("") && !HasBrackets("")
  {
    forall f ensures FieldName(f) != "" {
      NamesAreWords(f);
    }
  }

  lemma FieldLineReads(f: Field, v: string, c: Credentials)
    requires PlainValue(v)
    ensures ReadLine(FieldLine(f, v), c) == Ok(Set(c, f, v))
    ensures OneLine(FieldLine(f, v))
  {
    TightLine(FieldName(f), v);
    LaidOutReads(f, TIGHT, v, c);
    hide FieldName, ReadLine, Line, PlainValue;
  }

  // ---------------------------------------------------------------- any lines, in any order

  /** A line of the secret: a field, its layout and its value. */
  datatype Entry = Entry(field: Field, layout: Layout, value: string)

  predicate PlainEntry(e: Entry) {
    PlainValue(e.value) && PlainLayout(e.layout)
  }

  function EntryLines(es: seq<Entry>): seq<string> {
    if es == [] then []
    else EntryLines(es[..|es| - 1]) + [Line(FieldName(es[|es| - 1].field), es[|es| - 1].layout, es[|es| - 1].value)]
  }

  /** The value of the last entry for the field; empty if there is none. */
  function LastValue(es: seq<Entry>, f: Field): string {
    if es == [] then "" else if es[|es| - 1].field == f then es[|es| - 1].value else LastValue(es[..|es| - 1], f)
  }

  /** Whatever the layout and the order of the lines, every field comes back with its last value. */
  lemma {:induction false} EntriesReadBack(es: seq<Entry>)
    requires forall i :: 0 <= i < |es| ==> PlainEntry(es[i])
    ensures ReadLines(EntryLines(es), NONE)
         == Ok(Credentials(LastValue(es, StorageKey), LastValue(es, Subscription), LastValue(es, Client),
                           LastValue(es, ClientSecret), LastValue(es, ResourceGroup), LastValue(es, Tenant)))
  {
    if es != [] {
      var init, e := es[..|es| - 1], es[|es| - 1];
      EntriesReadBack(init);
      var before := ReadLines(EntryLines(init), NONE).value;
      LaidOutReads(e.field, e.layout, e.value, before);
      ReadSnoc(EntryLines(init), Line(FieldName(e.field), e.layout, e.value), NONE);
      hide ReadLines, ReadLine, Line, FieldName, PlainValue;
    }
  }

  lemma {:induction false} EntryLinesAreOneLine(es: seq<Entry>)
    requires forall i :: 0 <= i < |es| ==> PlainEntry(es[i])
    ensures forall i :: 0 <= i < |EntryLines(es)| ==> OneLine(EntryLines(es)[i])
  {
    if es != [] {
      var init, e := es[..|es| - 1], es[|es| - 1];
      EntryLinesAreOneLine(init);
      LaidOutReads(e.field, e.layout, e.value, NONE);
      hide ReadLine, Line, FieldName, PlainValue, OneLine;
    }
  }

  /** The same of the text of the secret. */
  lemma EntriesTextReadsBack(es: seq<Entry>)
    requires forall i :: 0 <= i < |es| ==> PlainEntry(es[i])
    ensures ReadLines(Lines(Terminated(EntryLines(es))), NONE)
         == Ok(Credentials(LastValue(es, StorageKey), LastValue(es, Subscription), LastValue(es, Client),
                           LastValue(es, ClientSecret), LastValue(es, ResourceGroup), LastValue(es, Tenant)))
  {
    EntriesReadBack(es);
    EntryLinesAreOneLine(es);
    LinesOfTerminated(EntryLines(es));
    ReadSnoc(EntryLines(es), "", NONE);
    ReadNothing();
    hide ReadLines, ReadLine, EntryLines, LastValue, Lines, PlainEntry;
  }

  /** The first entry without a value is the error that is reported. */
  lemma EmptyEntryFails(es: seq<Entry>, f: Field, l: Layout)
    requires (forall i :: 0 <= i < |es| ==> PlainEntry(es[i])) && PlainLayout(l)
    ensures ReadLines(EntryLines(es) + [Line(FieldName(f), l, "")], NONE) == Err(FieldName(f))
  {
    EntriesReadBack(es);
    LaidOutReads(f, l, "", ReadLines(EntryLines(es), NONE).value);
    ReadSnoc(EntryLines(es), Line(FieldName(f), l, ""), NONE);
    hide ReadLines, ReadLine, Line, FieldName, PlainValue;
  }

  /** Order of the fields in the switch. */
  function Rank(f: Field): nat {
    match f
    case StorageKey => 0
    case Subscription => 1
    case Client => 2
    case ClientSecret => 3
    case ResourceGroup => 4
    case Tenant => 5
  }

  /** A line that names several fields belongs to the first of them; one with brackets to none. */
  lemma FirstFieldWins(line: string)
    ensures FieldOf(line).None? <==> line == "" || HasBrackets(line) || forall f :: !HasWord(line, FieldName(f))
    ensures FieldOf(line).Some? ==> var f := FieldOf(line).value;
      HasWord(line, FieldName(f)) && forall g :: HasWord(line, FieldName(g)) ==> Rank(f) <= Rank(g)
  {
    hide HasWord, HasBrackets;
    assert FieldName(StorageKey) == STORAGE_KEY && FieldName(Subscription) == SUBSCRIPTION && FieldName(Client) == CLIENT;
    assert FieldName(ClientSecret) == CLIENT_SECRET && FieldName(ResourceGroup) == RESOURCE_GROUP && FieldName(Tenant) == TENANT;
  }

  lemma FieldOfWords(line: string, f: Field)
    requires line != "" && !HasBrackets(line)
    requires forall g :: HasWord(line, FieldName(g)) <==> g == f
    ensures FieldOf(line) == Some(f)
  {
    hide HasWord, HasBrackets;
    assert HasWord(line, FieldName(f));
    assert HasWord(line, FieldName(StorageKey)) <==> f == StorageKey;
    assert HasWord(line, FieldName(Subscription)) <==> f == Subscription;
    assert HasWord(line, FieldName(Client)) <==> f == Client;
    assert HasWord(line, FieldName(ClientSecret)) <==> f == ClientSecret;
    assert HasWord(line, FieldName(ResourceGroup)) <==> f == ResourceGroup;
    assert HasWord(line, FieldName(Tenant)) <==> f == Tenant;
  }

  lemma CloudLineReads(c: Credentials)
    ensures ReadLine(CLOUD_LINE, c) == Ok(c)
    ensures OneLine(CLOUD_LINE)
  {
    assert IsWord(CLOUD_NAME);
    assert '[' !in CLOUD_VALUE && '\n' !in CLOUD_VALUE && |CLOUD_VALUE| == 16;
    TightLine(CLOUD_NAME, CLOUD_VALUE);
    LineBrackets(CLOUD_NAME, TIGHT, CLOUD_VALUE);
    CloudLineHas(StorageKey);
    CloudLineHas(Subscription);
    CloudLineHas(Client);
    CloudLineHas(ClientSecret);
    CloudLineHas(ResourceGroup);
    CloudLineHas(Tenant);
  }

  lemma CloudLineHas(f: Field)
    ensures !HasWord(CLOUD_LINE, FieldName(f))
  {
    NamesAreWords(f);
    CloudNameDiffers(f);
    assert IsWord(CLOUD_NAME);
    hide FieldName;
    FieldWords(CLOUD_NAME, "=", CLOUD_VALUE, FieldName(f));
    assert '_' !in CLOUD_VALUE;
    ContainsChar(CLOUD_VALUE, FieldName(f), '_');
    if HasWord(CLOUD_VALUE, FieldName(f)) {
      WordIsContained(CLOUD_VALUE, FieldName(f));
    }
  }

  lemma CloudNameDiffers(f: Field)
    ensures FieldName(f) != CLOUD_NAME && '_' in FieldName(f)
  {
    assert |CLOUD_NAME| == 16 && |STORAGE_KEY| == 32 && |SUBSCRIPTION| == 21 && |CLIENT| == 15;
    assert |CLIENT_SECRET| == 19 && |RESOURCE_GROUP| == 20 && |TENANT| == 15;
    assert FieldName(f)[5] == '_';
  }

  // ---------------------------------------------------------------- substrings of printed texts

  lemma {:induction false} LinesContain(ls: seq<string>, t: string)
    requires t != "" && '\n' !in t
    ensures Contains(Terminated(ls), t) <==> exists i :: 0 <= i < |ls| && Contains(ls[i], t)
  {
    if ls != [] {
      LinesContain(ls[1..], t);
      ContainsSplit(ls[0], '\n', Terminated(ls[1..]), t);
      hide Contains;
      if i :| 0 <= i < |ls| && Contains(ls[i], t) {
        assert i == 0 || ls[1..][i - 1] == ls[i];
      }
      if j :| 0 <= j < |ls[1..]| && Contains(ls[1..][j], t) {
        assert ls[j + 1] == ls[1..][j];
      }
    }
  }

  lemma {:induction false} TerminatedSnoc(ls: seq<string>, l: string)
    ensures Terminated(ls + [l]) == Terminated(ls) + (l + "\n")
  {
    if ls == [] {
      assert [l][1..] == [];
      assert ls + [l] == [l] && Terminated([]) == "";
    } else {
      TerminatedSnoc(ls[1..], l);
      assert (ls + [l])[1..] == ls[1..] + [l];
      Assoc(ls[0] + "\n", Terminated(ls[1..]), l + "\n");
    }
  }

  lemma TerminatedSuffix(ls: seq<string>)
    requires ls != []
    ensures HasSuffix(Terminated(ls), "\n")
  {
    var k := |ls| - 1;
    assert ls == ls[..k] + [ls[k]];
    TerminatedSnoc(ls[..k], ls[k]);
    var s := Terminated(ls[..k]) + (ls[k] + "\n");
    assert s[|s| - 1..] == "\n";
  }

  lemma {:induction false} LinesOfTerminated(ls: seq<string>)
    requires forall i :: 0 <= i < |ls| ==> OneLine(ls[i])
    ensures Lines(Terminated(ls)) == ls + [""]
  {
    if ls != [] {
      LinesOfOneLine(ls[0]);
      LinesOfTerminated(ls[1..]);
      LinesConcat(ls[0], Terminated(ls[1..]));
      assert ls == [ls[0]] + ls[1..];
    }
  }

  lemma {:induction false} ReadSnoc(ls: seq<string>, l: string, c: Credentials)
    ensures ReadLines(ls + [l], c)
         == match ReadLines(ls, c)
            case Err(key) => Err(key)
            case Ok(c') => ReadLine(l, c')
  {
    hide ReadLine;
    if ls == [] {
      assert ls + [l] == [l] && [l][1..] == [];
    } else {
      assert (ls + [l])[1..] == ls[1..] + [l];
      if ReadLine(ls[0], c).Ok? {
        ReadSnoc(ls[1..], l, ReadLine(ls[0], c).value);
      }
    }
  }

  /** `w=` occurs in `key=v` only inside `v`, unless the key ends in `w`. */
  lemma KeyedContains(key: string, v: string, w: string)
    requires '=' !in key && '=' !in w && !HasSuffix(key, w)
    ensures Contains(key + "=" + v, w + "=") <==> Contains(v, w + "=")
  {
    var s, t := key + "=" + v, w + "=";
    if Contains(s, t) {
      var i :| 0 <= i <= |s| - |t| && At(s, t, i);
      KeyedContainsAt(key, v, w, i);
    }
    if Contains(v, t) {
      ContainsMono(key + "=", v, "", t);
      assert key + "=" + v + "" == s;
    }
  }

  lemma OccurrenceAtKeyEnd(key: string, v: string, w: string, i: nat)
    ensures At(key + "=" + v, w + "=", i) && i + |w| == |key| ==> HasSuffix(key, w)
  {
    var s, t := key + "=" + v, w + "=";
    if At(s, t, i) && i + |w| == |key| {
      forall m | 0 <= m < |w| ensures key[i + m] == w[m] {
        assert s[i + m] == s[i..i + |t|][m] == t[m];
      }
      assert key[|key| - |w|..] == w;
    }
  }

  lemma KeyedContainsAt(key: string, v: string, w: string, i: nat)
    requires '=' !in key && '=' !in w && !HasSuffix(key, w)
    requires At(key + "=" + v, w + "=", i)
    ensures Contains(v, w + "=")
  {
    var s, t := key + "=" + v, w + "=";
    assert s[|key|] == '=';
    assert forall m :: 0 <= m < |key| ==> s[m] == key[m] && s[m] in key;
    assert forall m :: i <= m < i + |w| ==> s[m] == t[m - i] && s[m] == w[m - i] && s[m] in w;
    assert s[i + |w|] == s[i..i + |t|][|w|] == '=';
    OccurrenceAtKeyEnd(key, v, w, i);
    assert i > |key|;
    SecondSlice(key + "=", v, i, i + |t|);
    assert At(v, t, i - |key| - 1);
  }

  predicate PrintedField(f: Field) {
    f == Subscription || f == Tenant || f == Client
  }

  /** The value keeps the patch from recognising the text as one without a resource group. */
  predicate Blocking(v: string) {
    Contains(v, CLIENT_SECRET) || Contains(v, GROUP_MARK)
  }

  lemma WordInWord(v: string, k: string)
    requires IsWord(v) && IsWord(k) && HasWord(v, k)
    ensures v == k
  {
    var i :| 0 <= i <= |v| - |k| && WordAt(v, k, i);
    assert i == 0 && |k| == |v|;
    assert v[0..|v|] == v;
  }

  lemma WordIsPlain(v: string)
    requires IsWord(v) && forall f :: v != FieldName(f)
    ensures PlainValue(v)
  {
    assert forall c :: c in v ==> WordChar(c);
    forall f ensures !HasWord(v, FieldName(f)) {
      NamesAreWords(f);
      hide FieldName, HasWord, WordAt;
      if HasWord(v, FieldName(f)) {
        WordInWord(v, FieldName(f));
      }
    }
    hide FieldName, HasWord;
  }

  /** A value that is printed and read back without fault, and that keeps the patch away. */
  lemma BlockingValue()
    ensures PlainValue("x" + CLIENT_SECRET) && Blocking("x" + CLIENT_SECRET)
  {
    var v := "x" + CLIENT_SECRET;
    ShortNamesAreWords();
    assert v[0] == 'x';
    ContainsMiddle("x", CLIENT_SECRET, "");
    assert "x" + CLIENT_SECRET + "" == v;
    forall f ensures v != FieldName(f) {
      NoNameStartsWithX(f);
    }
    WordIsPlain(v);
    hide PlainValue;
  }

  lemma NoNameStartsWithX(f: Field)
    ensures FieldName(f)[0..1] == "A"
  {
  }

  lemma PrintedNames(f: Field)
    requires PrintedField(f)
    ensures '=' !in FieldName(f) && '=' !in CLIENT_SECRET && '=' !in RESOURCE_GROUP && CLIENT_SECRET != ""
    ensures !HasSuffix(FieldName(f), RESOURCE_GROUP)
    ensures !Contains(FieldName(f), CLIENT_SECRET)
  {
    if f == Subscription {
      SubscriptionName();
    } else {
      assert |CLIENT_SECRET| == 19 && |RESOURCE_GROUP| == 20 && |CLIENT| == 15 && |TENANT| == 15;
    }
  }

  lemma SubscriptionName()
    ensures !HasSuffix(SUBSCRIPTION, RESOURCE_GROUP)
    ensures !Contains(SUBSCRIPTION, CLIENT_SECRET)
  {
    assert SUBSCRIPTION[0..19][6] == 'S' && SUBSCRIPTION[1..20][0] == 'Z' && SUBSCRIPTION[2..21][0] == 'U';
    assert SUBSCRIPTION[1..][0] == 'Z';
  }

  lemma FieldLineBlocks(f: Field, v: string)
    requires PrintedField(f)
    ensures Contains(FieldLine(f, v), CLIENT_SECRET) <==> Contains(v, CLIENT_SECRET)
    ensures Contains(FieldLine(f, v), GROUP_MARK) <==> Contains(v, GROUP_MARK)
  {
    PrintedNames(f);
    hide FieldName;
    ContainsSplit(FieldName(f), '=', v, CLIENT_SECRET);
    KeyedContains(FieldName(f), v, RESOURCE_GROUP);
  }

  lemma CloudLineBlocks()
    ensures !Contains(CLOUD_LINE, CLIENT_SECRET) && !Contains(CLOUD_LINE, GROUP_MARK)
    ensures !Contains("", CLIENT_SECRET) && !Contains("", GROUP_MARK)
  {
    assert |CLOUD_NAME| == 16 && |CLOUD_VALUE| == 16 && |CLIENT_SECRET| == 19 && |RESOURCE_GROUP| == 20;
    assert '=' !in CLIENT_SECRET && '=' !in RESOURCE_GROUP && '=' !in CLOUD_NAME;
    ContainsSplit(CLOUD_NAME, '=', CLOUD_VALUE, CLIENT_SECRET);
    KeyedContains(CLOUD_NAME, CLOUD_VALUE, RESOURCE_GROUP);
  }

  /** The patch adds the group to a printed text unless one of the values blocks it. */
  lemma PatchOfPrinted(subscription: string, tenant: string, client: string, group: string)
    requires group != ""
    ensures PatchGroup(Print(subscription, tenant, client), group)
         == if Blocking(subscription) || Blocking(tenant) || Blocking(client) then Print(subscription, tenant, client)
            else Print(subscription, tenant, client) + (GROUP_MARK + group + "\n")
  {
    TerminatedSuffix(PrintedLines(subscription, tenant, client));
    PrintedContains(subscription, tenant, client);
    hide Contains, PrintedLines, Terminated;
  }

  lemma PrintedContains(subscription: string, tenant: string, client: string)
    ensures var text := Print(subscription, tenant, client);
      && Contains(text, CLIENT)
      && (Contains(text, CLIENT_SECRET)
          <==> Contains(subscription, CLIENT_SECRET) || Contains(tenant, CLIENT_SECRET) || Contains(client, CLIENT_SECRET))
      && (Contains(text, GROUP_MARK)
          <==> Contains(subscription, GROUP_MARK) || Contains(tenant, GROUP_MARK) || Contains(client, GROUP_MARK))
  {
    assert '\n' !in CLIENT && '\n' !in CLIENT_SECRET && '\n' !in GROUP_MARK;
    FieldLineBlocks(Subscription, subscription);
    FieldLineBlocks(Tenant, tenant);
    FieldLineBlocks(Client, client);
    CloudLineBlocks();
    ClientLine(client);
    hide Contains, FieldLine;
    var a, b, c := FieldLine(Subscription, subscription), FieldLine(Tenant, tenant), FieldLine(Client, client);
    FiveLinesContain(a, b, c, CLOUD_LINE, CLIENT_SECRET);
    FiveLinesContain(a, b, c, CLOUD_LINE, GROUP_MARK);
    FiveLinesContain(a, b, c, CLOUD_LINE, CLIENT);
  }

  lemma ClientLine(client: string)
    ensures Contains(FieldLine(Client, client), CLIENT)
  {
    ContainsMiddle("", CLIENT, "=" + client);
    assert "" + CLIENT + ("=" + client) == FieldLine(Client, client);
  }

  lemma FiveLinesContain(a: string, b: string, c: string, d: string, t: string)
    requires t != "" && '\n' !in t
    ensures Contains(Terminated(["", a, b, c, d]), t) <==> Contains(a, t) || Contains(b, t) || Contains(c, t) || Contains(d, t)
  {
    var ls := ["", a, b, c, d];
    LinesContain(ls, t);
    assert !Contains("", t);
    hide Contains;
    assert ls[1] == a && ls[2] == b && ls[3] == c && ls[4] == d;
  }

  // ---------------------------------------------------------------- main result

  lemma ReadFive(a: string, b: string, c: string, d: string, r0: Credentials, r1: Credentials, r2: Credentials, r3: Credentials)
    requires ReadLine(a, r0) == Ok(r1) && ReadLine(b, r1) == Ok(r2) && ReadLine(c, r2) == Ok(r3) && ReadLine(d, r3) == Ok(r3)
    ensures ReadLines(["", a, b, c, d], r0) == Ok(r3)
  {
    assert ReadLine("", r0) == Ok(r0);
    hide ReadLine;
    assert ["", a, b, c, d] == [] + [""] + [a] + [b] + [c] + [d];
    ReadSnoc([], "", r0);
    ReadSnoc([] + [""], a, r0);
    ReadSnoc([] + [""] + [a], b, r0);
    ReadSnoc([] + [""] + [a] + [b], c, r0);
    ReadSnoc([] + [""] + [a] + [b] + [c], d, r0);
  }

  lemma PrintedReads(subscription: string, tenant: string, client: string)
    requires PlainValue(subscription) && PlainValue(tenant) && PlainValue(client)
    ensures var ls := PrintedLines(subscription, tenant, client);
      && (forall i :: 0 <= i < |ls| ==> OneLine(ls[i]))
      && ReadLines(ls, NONE) == Ok(NONE.(subscription := subscription, tenant := tenant, client := client))
  {
    var r1 := NONE.(subscription := subscription);
    var r2 := r1.(tenant := tenant);
    var r3 := r2.(client := client);
    FieldLineReads(Subscription, subscription, NONE);
    FieldLineReads(Tenant, tenant, r1);
    FieldLineReads(Client, client, r2);
    CloudLineReads(r3);
    hide FieldLine, ReadLine, PlainValue;
    ReadFive(FieldLine(Subscription, subscription), FieldLine(Tenant, tenant), FieldLine(Client, client), CLOUD_LINE, NONE, r1, r2, r3);
  }

  /** A closed line added to closed lines is read last. */
  lemma ReadAppended(ls: seq<string>, l: string, c: Credentials, r: Credentials)
    requires forall i :: 0 <= i < |ls| ==> OneLine(ls[i])
    requires OneLine(l) && ReadLines(ls, c) == Ok(r)
    ensures ReadLines(Lines(Terminated(ls)), c) == Ok(r)
    ensures ReadLines(Lines(Terminated(ls) + (l + "\n")), c) == ReadLine(l, r)
  {
    LinesOfTerminated(ls);
    LinesOfTerminated(ls + [l]);
    TerminatedSnoc(ls, l);
    ReadSnoc(ls, "", c);
    ReadSnoc(ls, l, c);
    ReadSnoc(ls + [l], "", c);
    ReadNothing();
    hide ReadLine, ReadLines;
  }

  lemma ReadNothing()
    ensures forall c :: ReadLine("", c) == Ok(c)
  {
  }

  /** The printed text, line by line: an empty one first, and every line closed. */
  lemma PrintedText(subscription: string, tenant: string, client: string)
    requires OneLine(subscription) && OneLine(tenant) && OneLine(client)
    ensures Lines(Print(subscription, tenant, client))
         == ["", "AZURE_SUBSCRIPTION_ID" + "=" + subscription, "AZURE_TENANT_ID" + "=" + tenant, "AZURE_CLIENT_ID" + "=" + client,
             "AZURE_CLOUD_NAME" + "=" + "AzurePublicCloud", ""]
  {
    NamesAreWords(Subscription);
    NamesAreWords(Tenant);
    NamesAreWords(Client);
    CloudLineReads(NONE);
    LinesOfTerminated(PrintedLines(subscription, tenant, client));
    hide Lines, IsWord, ReadLine;
  }

  /**
   Print, patch, parse: exactly the printed values come back, and the resource group too unless
   a value contains the text by which the patch recognises a client secret or a resource group.
   */
  lemma PrintPatchParse(subscription: string, tenant: string, client: string, group: string)
    requires PlainValue(subscription) && PlainValue(tenant) && PlainValue(client) && PlainValue(group)
    ensures var text := Print(subscription, tenant, client);
      && ReadLines(Lines(text), NONE) == Ok(NONE.(subscription := subscription, tenant := tenant, client := client))
      && ReadLines(Lines(PatchGroup(text, group)), NONE)
         == Ok(NONE.(subscription := subscription, tenant := tenant, client := client,
                     resourceGroup := if Blocking(subscription) || Blocking(tenant) || Blocking(client) then "" else group))
  {
    var r := NONE.(subscription := subscription, tenant := tenant, client := client);
    PatchOfPrinted(subscription, tenant, client, group);
    PrintedReads(subscription, tenant, client);
    FieldLineReads(ResourceGroup, group, r);
    assert GROUP_MARK + group == FieldLine(ResourceGroup, group);
    ReadAppended(PrintedLines(subscription, tenant, client), FieldLine(ResourceGroup, group), NONE, r);
    hide PatchGroup, PrintedLines, Blocking, ReadLine, ReadLines, PlainValue, Lines;
  }
}
