/**
 Texts as sequences of characters: lines, substring search, the two regular
 expressions the credential parsers use, and the clean-up of a `key = value` line.
 */
module Text {

  import opened Wrappers

  lemma Assoc(a: string, b: string, c: string)
    ensures a + (b + c) == (a + b) + c
  {
  }

  lemma SamePrefix(p: string, a: string, b: string)
    ensures p + a == p + b <==> a == b
  {
    assert (p + a)[|p|..] == a && (p + b)[|p|..] == b;
  }

  /** A slice that lies in the second part. */
  lemma SecondSlice(a: string, b: string, lo: nat, hi: nat)
    requires |a| <= lo <= hi <= |a| + |b|
    ensures (a + b)[lo..hi] == b[lo - |a|..hi - |a|]
  {
  }

  // ---------------------------------------------------------------- lines

  /** The lines of a text that begins with `c` and continues with the lines `rest`. */
  function Prepend(c: char, rest: seq<string>): (ls: seq<string>)
    requires |rest| >= 1
    ensures |ls| >= 1
  {
    if c == '\n' then [""] + rest else [[c] + rest[0]] + rest[1..]
  }

  /** `strings.Split(s, "\n")`: there is always at least one line. */
  function Lines(s: string): (ls: seq<string>)
    ensures |ls| >= 1
  {
    if s == "" then [""] else Prepend(s[0], Lines(s[1..]))
  }

  function Unlines(ls: seq<string>): string
    requires |ls| >= 1
  {
    if |ls| == 1 then ls[0] else ls[0] + "\n" + Unlines(ls[1..])
  }

  predicate OneLine(s: string) {
    '\n' !in s
  }

  /** Splitting never loses a character, and no line holds a line break. */
  lemma {:induction false} UnlinesOfLines(s: string)
    ensures Unlines(Lines(s)) == s
    ensures forall i :: 0 <= i < |Lines(s)| ==> OneLine(Lines(s)[i])
  {
    if s == "" {
    } else {
      var rest := Lines(s[1..]);
      UnlinesOfLines(s[1..]);
      if s[0] == '\n' {
        assert Lines(s)[1..] == rest;
      } else {
        assert Lines(s)[1..] == rest[1..];
        assert s == [s[0]] + s[1..];
      }
    }
  }

  lemma {:induction false} LinesOfOneLine(l: string)
    requires OneLine(l)
    ensures Lines(l) == [l]
  {
    if l != "" {
      LinesOfOneLine(l[1..]);
      assert l[0] in l && l == [l[0]] + l[1..];
    }
  }

  lemma PrependConcat(c: char, a: seq<string>, b: seq<string>)
    requires |a| >= 1
    ensures Prepend(c, a + b) == Prepend(c, a) + b
  {
    assert (a + b)[1..] == a[1..] + b;
  }

  lemma {:induction false} LinesConcat(a: string, b: string)
    ensures Lines(a + "\n" + b) == Lines(a) + Lines(b)
  {
    var s := a + "\n" + b;
    if a == "" {
      assert s[0] == '\n' && s[1..] == b;
    } else {
      LinesConcat(a[1..], b);
      PrependConcat(a[0], Lines(a[1..]), Lines(b));
      assert s[0] == a[0] && s[1..] == a[1..] + "\n" + b;
    }
  }

  /** Joining lines and splitting again gives the lines back. */
  lemma {:induction false} LinesOfUnlines(ls: seq<string>)
    requires |ls| >= 1
    requires forall i :: 0 <= i < |ls| ==> OneLine(ls[i])
    ensures Lines(Unlines(ls)) == ls
  {
    LinesOfOneLine(ls[0]);
    if |ls| > 1 {
      LinesOfUnlines(ls[1..]);
      LinesConcat(ls[0], Unlines(ls[1..]));
    }
  }

  // ---------------------------------------------------------------- substrings

  predicate At(s: string, t: string, i: int) {
    0 <= i <= |s| - |t| && s[i..i + |t|] == t
  }

  /** `strings.Contains(s, t)`. */
  predicate Contains(s: string, t: string) {
    exists i :: 0 <= i <= |s| - |t| && At(s, t, i)
  }

  predicate HasPrefix(s: string, t: string) {
    t <= s
  }

  predicate HasSuffix(s: string, t: string) {
    |t| <= |s| && s[|s| - |t|..] == t
  }

  lemma ContainsMiddle(a: string, t: string, b: string)
    ensures Contains(a + t + b, t)
  {
    assert At(a + t + b, t, |a|);
  }

  lemma ContainsMono(a: string, s: string, b: string, t: string)
    requires Contains(s, t)
    ensures Contains(a + s + b, t)
  {
    var i :| 0 <= i <= |s| - |t| && At(s, t, i);
    assert (a + s + b)[|a| + i..|a| + i + |t|] == s[i..i + |t|];
    assert At(a + s + b, t, |a| + i);
  }

  lemma ContainsChar(s: string, t: string, c: char)
    requires c in t
    ensures Contains(s, t) ==> c in s
  {
    var m :| 0 <= m < |t| && t[m] == c;
    assert forall i :: At(s, t, i) ==> s[i..i + |t|][m] == s[i + m];
  }

  /** An occurrence in `a + [c] + b` that avoids the separator lies in `a` or in `b`. */
  lemma ContainsSplit(a: string, c: char, b: string, t: string)
    requires c !in t
    requires t != ""
    ensures Contains(a + [c] + b, t) <==> Contains(a, t) || Contains(b, t)
  {
    var s := a + [c] + b;
    if Contains(s, t) {
      var i :| 0 <= i <= |s| - |t| && At(s, t, i);
      assert forall m :: 0 <= m < |t| ==> t[m] == s[i + m];
      assert forall m :: i <= m < i + |t| ==> s[m] == t[m - i] && s[m] != c;
      assert s[|a|] == c;
      if i + |t| <= |a| {
        assert a[i..i + |t|] == s[i..i + |t|];
        assert At(a, t, i);
      } else {
        assert b[i - |a| - 1..i - |a| - 1 + |t|] == s[i..i + |t|];
        assert At(b, t, i - |a| - 1);
      }
    }
    if Contains(a, t) {
      ContainsMono("", a, [c] + b, t);
      assert "" + a + ([c] + b) == s;
    }
    if Contains(b, t) {
      ContainsMono(a + [c], b, "", t);
      assert (a + [c]) + b + "" == s;
    }
  }

  // ---------------------------------------------------------------- regular expressions

  predicate WordChar(c: char) {
    'a' <= c <= 'z' || 'A' <= c <= 'Z' || '0' <= c <= '9' || c == '_'
  }

  predicate IsWord(k: string) {
    k != "" && forall i :: 0 <= i < |k| ==> WordChar(k[i])
  }

  predicate WordAt(s: string, k: string, i: int) {
    && At(s, k, i)
    && (i == 0 || !WordChar(s[i - 1]))
    && (i + |k| == |s| || !WordChar(s[i + |k|]))
  }

  /** The line matches `\bk\b`, for a `k` made of word characters. */
  predicate HasWord(s: string, k: string) {
    exists i :: 0 <= i <= |s| - |k| && WordAt(s, k, i)
  }

  /** The line matches `\[.*\]`. */
  predicate HasBrackets(s: string) {
    exists i, j :: 0 <= i < j < |s| && s[i] == '[' && s[j] == ']'
  }

  lemma WordIsContained(s: string, k: string)
    requires HasWord(s, k)
    ensures Contains(s, k)
  {
    var i :| 0 <= i <= |s| - |k| && WordAt(s, k, i);
    assert At(s, k, i);
  }

  predicate NoWordChar(s: string) {
    forall i :: 0 <= i < |s| ==> !WordChar(s[i])
  }

  /** Behind a key and a separator of other characters, a word is either the whole key or a word of what follows. */
  lemma FieldWords(key: string, sep: string, v: string, k: string)
    requires IsWord(key) && IsWord(k) && sep != "" && NoWordChar(sep)
    ensures HasWord(key + sep + v, k) <==> k == key || HasWord(v, k)
  {
    var s := key + sep + v;
    if HasWord(s, k) {
      var i :| 0 <= i <= |s| - |k| && WordAt(s, k, i);
      WordOfField(key, sep, v, k, i);
    }
    if k == key {
      assert s[0..|key|] == key;
      assert s[|key|] == sep[0];
      assert WordAt(s, k, 0);
    }
    if HasWord(v, k) {
      var j :| 0 <= j <= |v| - |k| && WordAt(v, k, j);
      WordOfValue(key + sep, v, k, j);
    }
  }

  lemma WordOfValue(front: string, v: string, k: string, j: nat)
    requires WordAt(v, k, j) && front != "" && !WordChar(front[|front| - 1])
    ensures HasWord(front + v, k)
  {
    var s := front + v;
    var i := j + |front|;
    SecondSlice(front, v, i, i + |k|);
    assert j > 0 ==> s[i - 1] == v[j - 1];
    assert j == 0 ==> s[i - 1] == front[|front| - 1];
    assert j + |k| < |v| ==> s[i + |k|] == v[j + |k|];
    assert WordAt(s, k, i);
  }

  lemma WordOfField(key: string, sep: string, v: string, k: string, i: int)
    requires IsWord(key) && IsWord(k) && sep != "" && NoWordChar(sep)
    requires WordAt(key + sep + v, k, i)
    ensures k == key || HasWord(v, k)
  {
    var front := key + sep;
    var s := front + v;
    assert forall m :: i <= m < i + |k| ==> s[m] == k[m - i] && WordChar(s[m]);
    assert forall m :: 0 <= m < |key| ==> s[m] == key[m] && WordChar(s[m]);
    assert forall m :: |key| <= m < |front| ==> s[m] == sep[m - |key|] && !WordChar(s[m]);
    if i + |k| <= |key| {
      assert i == 0;
      assert |k| == |key|;
      assert k == s[0..|key|] == key;
    } else {
      var m := if i < |key| then |key| else i;
      assert i <= m < i + |k| && WordChar(s[m]);
      assert |front| <= i;
      var j := i - |front|;
      SecondSlice(front, v, i, i + |k|);
      assert j > 0 ==> s[i - 1] == v[j - 1];
      assert i + |k| < |s| ==> s[i + |k|] == v[j + |k|];
      assert WordAt(v, k, j);
    }
  }

  /** A tail of other characters adds no word and takes none away. */
  lemma TailWords(v: string, tail: string, k: string)
    requires IsWord(k) && NoWordChar(tail)
    ensures HasWord(v + tail, k) <==> HasWord(v, k)
  {
    var s := v + tail;
    if HasWord(s, k) {
      var i :| 0 <= i <= |s| - |k| && WordAt(s, k, i);
      assert forall m :: i <= m < i + |k| ==> s[m] == k[m - i] && WordChar(s[m]);
      assert forall m :: |v| <= m < |s| ==> s[m] == tail[m - |v|] && !WordChar(s[m]);
      assert WordChar(s[i + |k| - 1]);
      assert v[i..i + |k|] == s[i..i + |k|];
      assert WordAt(v, k, i);
    }
    if HasWord(v, k) {
      var i :| 0 <= i <= |v| - |k| && WordAt(v, k, i);
      assert s[i..i + |k|] == v[i..i + |k|];
      assert i + |k| == |v| && tail != "" ==> s[i + |k|] == tail[0];
      assert WordAt(s, k, i);
    }
  }

  predicate NoBracket(s: string) {
    '[' !in s && ']' !in s
  }

  lemma MiddleBrackets(a: string, v: string, b: string)
    requires NoBracket(a) && NoBracket(b)
    ensures HasBrackets(a + (v + b)) <==> HasBrackets(v)
  {
    var s := a + (v + b);
    if HasBrackets(s) {
      var i, j :| 0 <= i < j < |s| && s[i] == '[' && s[j] == ']';
      assert forall m :: 0 <= m < |a| ==> s[m] == a[m];
      assert forall m :: |a| + |v| <= m < |s| ==> s[m] == b[m - |a| - |v|];
      assert v[i - |a|] == '[' && v[j - |a|] == ']';
    }
    if HasBrackets(v) {
      var i, j :| 0 <= i < j < |v| && v[i] == '[' && v[j] == ']';
      assert s[i + |a|] == '[' && s[j + |a|] == ']';
    }
  }

  // ---------------------------------------------------------------- clean-up

  function Keep(d: char, c: char): string {
    if d == c then "" else [d]
  }

  /** `strings.ReplaceAll(s, c, "")` for a single character. */
  function Remove(s: string, c: char): (r: string)
    ensures c !in r
    ensures forall d :: d in r ==> d in s
  {
    if s == "" then "" else Keep(s[0], c) + Remove(s[1..], c)
  }

  lemma {:induction false} RemoveAbsent(s: string, c: char)
    requires c !in s
    ensures Remove(s, c) == s
  {
    if s != "" {
      RemoveAbsent(s[1..], c);
    }
  }

  lemma {:induction false} RemoveConcat(a: string, b: string, c: char)
    ensures Remove(a + b, c) == Remove(a, c) + Remove(b, c)
  {
    if a == "" {
      assert a + b == b;
    } else {
      RemoveConcat(a[1..], b, c);
      assert (a + b)[0] == a[0] && (a + b)[1..] == a[1..] + b;
      hide Keep;
      Assoc(Keep(a[0], c), Remove(a[1..], c), Remove(b, c));
    }
  }

  function TrimPrefix(s: string, p: string): string {
    if HasPrefix(s, p) then s[|p|..] else s
  }

  function Unquoted(s: string): string {
    Remove(Remove(Remove(s, '"'), '\''), ' ')
  }

  predicate Unquotable(s: string) {
    '"' !in s && '\'' !in s && ' ' !in s
  }

  /** Value to the right of the `=` sign with quotes and blanks removed; an empty value is an error. */
  function KeyValue(key: string, line: string): Result<string, string> {
    var v := TrimPrefix(TrimPrefix(Unquoted(line), key), "=");
    if v == "" then Err(key) else Ok(v)
  }

  lemma UnquotedConcat(a: string, b: string)
    ensures Unquoted(a + b) == Unquoted(a) + Unquoted(b)
  {
    RemoveConcat(a, b, '"');
    RemoveConcat(Remove(a, '"'), Remove(b, '"'), '\'');
    RemoveConcat(Remove(Remove(a, '"'), '\''), Remove(Remove(b, '"'), '\''), ' ');
    hide Remove;
  }

  lemma UnquotedPlain(s: string)
    requires Unquotable(s)
    ensures Unquoted(s) == s
  {
    RemoveAbsent(s, '"');
    RemoveAbsent(s, '\'');
    RemoveAbsent(s, ' ');
  }

  // ---------------------------------------------------------------- lines with a layout

  /** Blanks and quotes only. */
  predicate Filler(s: string) {
    forall c :: c in s ==> c == ' ' || c == '"' || c == '\''
  }

  lemma UnquotedFiller(s: string)
    requires Filler(s)
    ensures Unquoted(s) == ""
  {
    var a := Remove(s, '"');
    var b := Remove(a, '\'');
    assert forall c :: c in b ==> c == ' ';
    RemoveAll(b, ' ');
  }

  lemma {:induction false} RemoveAll(s: string, c: char)
    requires forall d :: d in s ==> d == c
    ensures Remove(s, c) == ""
  {
    if s != "" {
      assert s[0] in s && forall d :: d in s[1..] ==> d in s;
      RemoveAll(s[1..], c);
    }
  }

  lemma WordIsUnquotable(key: string)
    requires IsWord(key)
    ensures Unquotable(key) && OneLine(key) && NoBracket(key)
  {
    assert forall c :: c in key ==> WordChar(c);
  }

  /**
   Blanks and quotes around the `=` sign and behind the value do not matter: the value is read back
   exactly, and one of blanks and quotes only is an error.
   */
  lemma KeyValueOfField(key: string, a: string, b: string, v: string, c: string)
    requires IsWord(key) && Unquotable(v) && Filler(a) && Filler(b) && Filler(c)
    ensures KeyValue(key, key + a + "=" + b + v + c) == if v == "" then Err(key) else Ok(v)
  {
    WordIsUnquotable(key);
    UnquotedField(key, a, b, v, c);
    hide Unquoted;
    assert (key + "=" + v)[..|key|] == key && (key + "=" + v)[|key|..] == "=" + v;
    assert ("=" + v)[..1] == "=" && ("=" + v)[1..] == v;
  }

  lemma UnquotedField(key: string, a: string, b: string, v: string, c: string)
    requires Unquotable(key) && Unquotable(v) && Filler(a) && Filler(b) && Filler(c)
    ensures Unquoted(key + a + "=" + b + v + c) == key + "=" + v
  {
    UnquotedPlain(key);
    UnquotedPlain("=");
    UnquotedPlain(v);
    UnquotedFiller(a);
    UnquotedFiller(b);
    UnquotedFiller(c);
    hide Unquoted;
    UnquotedConcat(key, a);
    UnquotedConcat(key + a, "=");
    UnquotedConcat(key + a + "=", b);
    UnquotedConcat(key + a + "=" + b, v);
    UnquotedConcat(key + a + "=" + b + v, c);
  }

  /** What stands between key and `=`, between `=` and value, and behind the value. */
  datatype Layout = Layout(beforeEq: string, afterEq: string, afterValue: string)

  const TIGHT := Layout("", "", "")

  predicate PlainLayout(l: Layout) {
    Filler(l.beforeEq) && Filler(l.afterEq) && Filler(l.afterValue)
  }

  function Separator(l: Layout): string {
    l.beforeEq + "=" + l.afterEq
  }

  function Line(key: string, l: Layout, v: string): string {
    key + Separator(l) + (v + l.afterValue)
  }

  lemma TightLine(key: string, v: string)
    ensures PlainLayout(TIGHT) && Line(key, TIGHT, v) == key + "=" + v
  {
  }

  lemma FillerIsInert(s: string)
    requires Filler(s)
    ensures NoWordChar(s) && NoBracket(s) && OneLine(s)
  {
    assert forall i :: 0 <= i < |s| ==> s[i] in s;
  }

  lemma SeparatorIsInert(l: Layout)
    requires PlainLayout(l)
    ensures Separator(l) != "" && NoWordChar(Separator(l)) && NoBracket(Separator(l)) && OneLine(Separator(l))
  {
    FillerIsInert(l.beforeEq);
    FillerIsInert(l.afterEq);
    hide Filler;
  }

  lemma LineWords(key: string, l: Layout, v: string, k: string)
    requires IsWord(key) && IsWord(k) && PlainLayout(l)
    ensures HasWord(Line(key, l, v), k) <==> k == key || HasWord(v, k)
  {
    SeparatorIsInert(l);
    FillerIsInert(l.afterValue);
    hide HasWord, Separator, IsWord;
    FieldWords(key, Separator(l), v + l.afterValue, k);
    TailWords(v, l.afterValue, k);
  }

  lemma LineBrackets(key: string, l: Layout, v: string)
    requires IsWord(key) && PlainLayout(l)
    ensures HasBrackets(Line(key, l, v)) <==> HasBrackets(v)
    ensures OneLine(v) ==> OneLine(Line(key, l, v))
  {
    SeparatorIsInert(l);
    FillerIsInert(l.afterValue);
    WordIsUnquotable(key);
    hide HasBrackets, Separator;
    MiddleBrackets(key + Separator(l), v, l.afterValue);
  }

  lemma LineValue(key: string, l: Layout, v: string)
    requires IsWord(key) && Unquotable(v) && PlainLayout(l)
    ensures KeyValue(key, Line(key, l, v)) == if v == "" then Err(key) else Ok(v)
  {
    KeyValueOfField(key, l.beforeEq, l.afterEq, v, l.afterValue);
    Regroup(key, l.beforeEq, "=", l.afterEq, v, l.afterValue);
    hide KeyValue, IsWord, Unquotable, Filler;
  }

  lemma Regroup(k: string, a: string, e: string, b: string, v: string, c: string)
    ensures k + (a + e + b) + (v + c) == k + a + e + b + v + c
  {
    Assoc(k, a + e, b);
    Assoc(k, a, e);
    Assoc(k + (a + e + b), v, c);
  }
}
