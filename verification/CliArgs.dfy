/**
 `GenerateCliArgsFromConfigMap`: a ConfigMap becomes command-line arguments, one per key,
 sorted so that the order in which the map is walked does not show.
 */
module CliArgs {

  import opened Text

  // ---------------------------------------------------------------- one argument

  function LowerChar(c: char): char {
    if 'A' <= c <= 'Z' then ((c as int) + 32) as char else c
  }

  /** Simple case folding onto a lower-case ASCII letter; the long s folds onto `s`. */
  predicate FoldsTo(c: char, d: char) {
    LowerChar(c) == d || (d == 's' && c == '\U{17F}')
  }

  predicate EqualFold(s: string, t: string) {
    |s| == |t| && forall i :: 0 <= i < |s| ==> FoldsTo(s[i], t[i])
  }

  function Lower(s: string): string {
    seq(|s|, i requires 0 <= i < |s| => LowerChar(s[i]))
  }

  function Argument(key: string, value: string): string {
    (if HasPrefix(key, "-") then key else "--" + key) + "="
    + (if EqualFold(value, "true") || EqualFold(value, "false") then Lower(value) else value)
  }

  predicate SpellsTrue(v: string) {
    |v| == 4 && v[0] in {'t', 'T'} && v[1] in {'r', 'R'} && v[2] in {'u', 'U'} && v[3] in {'e', 'E'}
  }

  predicate SpellsFalse(v: string) {
    |v| == 5 && v[0] in {'f', 'F'} && v[1] in {'a', 'A'} && v[2] in {'l', 'L'} && v[3] in {'s', 'S'} && v[4] in {'e', 'E'}
  }

  /** The Unicode long s folds onto `s` but has no lower case of its own. */
  predicate SpellsLongFalse(v: string) {
    |v| == 5 && v[0] in {'f', 'F'} && v[1] in {'a', 'A'} && v[2] in {'l', 'L'} && v[3] == '\U{17F}' && v[4] in {'e', 'E'}
  }

  function PlainBoolean(v: string): string {
    if SpellsTrue(v) then "true" else if SpellsFalse(v) then "false"
    else if SpellsLongFalse(v) then ['f', 'a', 'l', '\U{17F}', 'e'] else v
  }

  /** The argument of an entry: two dashes unless the key brings its own, and booleans in lower case. */
  lemma ArgumentIs(key: string, value: string)
    ensures Argument(key, value) == (if key != "" && key[0] == '-' then key else "--" + key) + "=" + PlainBoolean(value)
  {
    assert HasPrefix(key, "-") <==> key != "" && key[0] == '-' by {
      if key != "" {
        assert key[..1] == [key[0]];
      }
    }
    FoldsToTrue(value);
    FoldsToFalse(value);
    hide EqualFold, Lower;
  }

  lemma FoldsToTrue(v: string)
    ensures EqualFold(v, "true") <==> SpellsTrue(v)
    ensures SpellsTrue(v) ==> Lower(v) == "true"
  {
    if |v| == 4 {
      assert EqualFold(v, "true") <==> FoldsTo(v[0], 't') && FoldsTo(v[1], 'r') && FoldsTo(v[2], 'u') && FoldsTo(v[3], 'e') by {
        assert "true"[0] == 't' && "true"[1] == 'r' && "true"[2] == 'u' && "true"[3] == 'e';
      }
      OneLetter(v[0], 't');
      OneLetter(v[1], 'r');
      OneLetter(v[2], 'u');
      OneLetter(v[3], 'e');
    }
  }

  lemma FoldsToFalse(v: string)
    ensures EqualFold(v, "false") <==> SpellsFalse(v) || SpellsLongFalse(v)
    ensures SpellsFalse(v) ==> Lower(v) == "false"
    ensures SpellsLongFalse(v) ==> Lower(v) == ['f', 'a', 'l', '\U{17F}', 'e']
  {
    if |v| == 5 {
      assert EqualFold(v, "false")
        <==> FoldsTo(v[0], 'f') && FoldsTo(v[1], 'a') && FoldsTo(v[2], 'l') && FoldsTo(v[3], 's') && FoldsTo(v[4], 'e') by {
        assert "false"[0] == 'f' && "false"[1] == 'a' && "false"[2] == 'l' && "false"[3] == 's' && "false"[4] == 'e';
      }
      OneLetter(v[0], 'f');
      OneLetter(v[1], 'a');
      OneLetter(v[2], 'l');
      OneLetter(v[3], 's');
      OneLetter(v[4], 'e');
    }
  }

  lemma OneLetter(c: char, d: char)
    requires 'a' <= d <= 'z'
    ensures FoldsTo(c, d) <==> c == d || c == ((d as int) - 32) as char || (d == 's' && c == '\U{17F}')
    ensures c == d || c == ((d as int) - 32) as char ==> LowerChar(c) == d
  {
  }

  // ---------------------------------------------------------------- order of strings

  predicate Le(a: string, b: string) {
    a == "" || (b != "" && (a[0] < b[0] || (a[0] == b[0] && Le(a[1..], b[1..]))))
  }

  /** The texts agree up to `i`, where `a` has the smaller character. */
  predicate SmallerAt(a: string, b: string, i: nat) {
    i < |a| && i < |b| && a[..i] == b[..i] && a[i] < b[i]
  }

  lemma SmallerAtNext(a: string, b: string, i: nat)
    requires a != "" && b != "" && a[0] == b[0]
    ensures SmallerAt(a, b, i + 1) <==> SmallerAt(a[1..], b[1..], i)
  {
    if i + 1 < |a| && i + 1 < |b| {
      assert a[..i + 1] == [a[0]] + a[1..][..i] && b[..i + 1] == [b[0]] + b[1..][..i];
      assert a[1..][..i] == a[..i + 1][1..] && b[1..][..i] == b[..i + 1][1..];
    }
  }

  lemma SmallerAtFirst(a: string, b: string, i: nat)
    requires a != "" && b != "" && a[0] != b[0]
    ensures SmallerAt(a, b, i) <==> i == 0 && a[0] < b[0]
  {
    if i > 0 && i < |a| && i < |b| {
      assert a[..i][0] != b[..i][0];
    }
  }

  /** Byte-wise order: `a` is a prefix of `b`, or the first character in which they differ is smaller in `a`. */
  lemma {:induction false} OrderIs(a: string, b: string)
    ensures Le(a, b) <==> a <= b || exists i :: SmallerAt(a, b, i)
  {
    if a != "" && b != "" {
      if a[0] == b[0] {
        OrderIs(a[1..], b[1..]);
        assert a == [a[0]] + a[1..] && b == [b[0]] + b[1..];
        assert a <= b <==> a[1..] <= b[1..];
        if i: nat :| SmallerAt(a[1..], b[1..], i) {
          SmallerAtNext(a, b, i);
        }
        if i: nat :| SmallerAt(a, b, i) {
          assert i > 0;
          SmallerAtNext(a, b, i - 1);
        }
      } else {
        SmallerAtFirst(a, b, 0);
        if i: nat :| SmallerAt(a, b, i) {
          SmallerAtFirst(a, b, i);
        }
      }
    }
  }

  lemma {:induction false} LeTotal(a: string, b: string)
    ensures Le(a, b) || Le(b, a)
  {
    if a != "" && b != "" && a[0] == b[0] {
      LeTotal(a[1..], b[1..]);
    }
  }

  lemma {:induction false} LeAntisymmetric(a: string, b: string)
    requires Le(a, b) && Le(b, a)
    ensures a == b
  {
    if a != "" {
      LeAntisymmetric(a[1..], b[1..]);
      assert a == [a[0]] + a[1..] && b == [b[0]] + b[1..];
    }
  }

  lemma {:induction false} LeTransitive(a: string, b: string, c: string)
    requires Le(a, b) && Le(b, c)
    ensures Le(a, c)
  {
    if a != "" && a[0] == b[0] && b[0] == c[0] {
      LeTransitive(a[1..], b[1..], c[1..]);
    }
  }

  predicate Sorted(s: seq<string>) {
    forall i, j :: 0 <= i < j < |s| ==> Le(s[i], s[j])
  }

  lemma HeadsAreEqual(a: seq<string>, b: seq<string>)
    requires Sorted(a) && Sorted(b) && multiset(a) == multiset(b) && a != []
    ensures b != [] && a[0] == b[0]
  {
    assert a[0] in multiset(b);
    assert b[0] in multiset(a);
    var i :| 0 <= i < |b| && b[i] == a[0];
    var j :| 0 <= j < |a| && a[j] == b[0];
    LeTotal(a[0], a[0]);
    assert Le(b[0], a[0]) && Le(a[0], b[0]);
    LeAntisymmetric(a[0], b[0]);
  }

  lemma {:induction false} SortedIsUnique(a: seq<string>, b: seq<string>)
    requires Sorted(a) && Sorted(b) && multiset(a) == multiset(b)
    ensures a == b
  {
    if a == [] {
      assert |multiset(b)| == 0;
    } else {
      HeadsAreEqual(a, b);
      TailOf(a);
      TailOf(b);
      hide Sorted;
      SortedIsUnique(a[1..], b[1..]);
    }
  }

  lemma TailOf(a: seq<string>)
    requires Sorted(a) && a != []
    ensures Sorted(a[1..]) && multiset(a[1..]) == multiset(a) - multiset{a[0]} && a == [a[0]] + a[1..]
  {
    hide Le;
    assert a == [a[0]] + a[1..];
  }

  // ---------------------------------------------------------------- all arguments

  /** The keys of the map that become argument `a`. */
  function KeysOf(data: map<string, string>, keys: set<string>, a: string): set<string> {
    set k | k in keys && k in data && Argument(k, data[k]) == a
  }

  /** `args` has one argument for each of the keys. */
  ghost predicate OnePerKey(data: map<string, string>, keys: set<string>, args: seq<string>) {
    forall a :: multiset(args)[a] == |KeysOf(data, keys, a)|
  }

  /** `sort.Strings`, by insertion. */
  method SortStrings(s: seq<string>) returns (r: seq<string>)
    ensures Sorted(r) && multiset(r) == multiset(s)
  {
    r := [];
    for i := 0 to |s|
      invariant Sorted(r) && multiset(r) == multiset(s[..i])
    {
      assert s[..i + 1] == s[..i] + [s[i]];
      r := Insert(r, s[i]);
    }
    assert s[..|s|] == s;
  }

  method Insert(s: seq<string>, x: string) returns (r: seq<string>)
    requires Sorted(s)
    ensures Sorted(r) && multiset(r) == multiset(s) + multiset{x}
  {
    var i := 0;
    while i < |s| && Le(s[i], x)
      invariant 0 <= i <= |s|
      invariant forall k :: 0 <= k < i ==> Le(s[k], x)
    {
      i := i + 1;
    }
    r := s[..i] + [x] + s[i..];
    assert s == s[..i] + s[i..];
    forall k | i <= k < |s| ensures Le(x, s[k]) {
      LeTotal(x, s[i]);
      if k > i {
        LeTransitive(x, s[i], s[k]);
      }
    }
    hide Le;
    SortedInsert(s, i, x);
  }

  lemma SortedInsert(s: seq<string>, i: nat, x: string)
    requires Sorted(s) && i <= |s|
    requires forall k :: 0 <= k < i ==> Le(s[k], x)
    requires forall k :: i <= k < |s| ==> Le(x, s[k])
    ensures Sorted(s[..i] + [x] + s[i..])
  {
    hide Le;
    var r := s[..i] + [x] + s[i..];
    forall a, b | 0 <= a < b < |r| ensures Le(r[a], r[b]) {
      assert r[a] == if a < i then s[a] else if a == i then x else s[a - 1];
      assert r[b] == if b < i then s[b] else if b == i then x else s[b - 1];
    }
  }

  /** The loop over the map's entries in any order. */
  method CollectArguments(data: map<string, string>) returns (args: seq<string>)
    ensures OnePerKey(data, data.Keys, args)
  {
    args := [];
    var todo := data.Keys;
    while todo != {}
      invariant todo <= data.Keys
      invariant OnePerKey(data, data.Keys - todo, args)
      decreases |todo|
    {
      var k :| k in todo;
      var next := Argument(k, data[k]);
      OneMoreKey(data, data.Keys - todo, args, k);
      args := args + [next];
      assert data.Keys - (todo - {k}) == (data.Keys - todo) + {k};
      todo := todo - {k};
    }
    assert data.Keys - {} == data.Keys;
  }

  lemma OneMoreKey(data: map<string, string>, keys: set<string>, args: seq<string>, k: string)
    requires OnePerKey(data, keys, args) && k in data && k !in keys
    ensures OnePerKey(data, keys + {k}, args + [Argument(k, data[k])])
  {
    hide Argument;
    var next := Argument(k, data[k]);
    forall a ensures multiset(args + [next])[a] == |KeysOf(data, keys + {k}, a)| {
      if a == next {
        assert KeysOf(data, keys + {k}, a) == KeysOf(data, keys, a) + {k};
      } else {
        assert KeysOf(data, keys + {k}, a) == KeysOf(data, keys, a);
      }
    }
  }

  ghost predicate IsGenerated(data: map<string, string>, sub: seq<string>, r: seq<string>) {
    |sub| <= |r| && r[..|sub|] == sub && Sorted(r[|sub|..]) && OnePerKey(data, data.Keys, r[|sub|..])
  }

  method GenerateCliArgs(data: map<string, string>, sub: seq<string>) returns (r: seq<string>)
    ensures IsGenerated(data, sub, r)
  {
    var args := CollectArguments(data);
    var sorted := SortStrings(args);
    r := sub + sorted;
    assert r[|sub|..] == sorted;
  }

  /** There is only one such list: the order of the walk does not show. */
  lemma GeneratedIsUnique(data: map<string, string>, sub: seq<string>, r: seq<string>, t: seq<string>)
    requires IsGenerated(data, sub, r) && IsGenerated(data, sub, t)
    ensures r == t
  {
    var a, b := r[|sub|..], t[|sub|..];
    forall x ensures multiset(a)[x] == multiset(b)[x] {
      assert multiset(a)[x] == |KeysOf(data, data.Keys, x)|;
    }
    assert multiset(a) == multiset(b);
    SortedIsUnique(a, b);
    assert r == r[..|sub|] + a && t == t[..|sub|] + b;
  }
}
