/**
 Carriage-return clean-up of secret data: every `\r\n` becomes `\n`, in one left-to-right
 pass that does not look again at what it has written.
 */
module CarriageReturns {

  import opened Text

  /** `strings.ReplaceAll(s, "\r\n", "\n")`. */
  function Replace(s: string): string {
    if s == "" then ""
    else if |s| >= 2 && s[0] == '\r' && s[1] == '\n' then "\n" + Replace(s[2..])
    else [s[0]] + Replace(s[1..])
  }

  function Passes(n: nat, s: string): string {
    if n == 0 then s else Passes(n - 1, Replace(s))
  }

  // ---------------------------------------------------------------- runs of carriage returns

  function Returns(n: nat): string {
    if n == 0 then "" else "\r" + Returns(n - 1)
  }

  function Max(a: nat, b: nat): nat {
    if a < b then b else a
  }

  /**
   The text `Returns(r) + s` with the run of carriage returns directly before each line
   break shortened by one; every other character is kept.
   */
  function Shortened(s: string, r: nat): string {
    if s == "" then Returns(r)
    else if s[0] == '\r' then Shortened(s[1..], r + 1)
    else if s[0] == '\n' then Returns(if r == 0 then 0 else r - 1) + "\n" + Shortened(s[1..], 0)
    else Returns(r) + [s[0]] + Shortened(s[1..], 0)
  }

  /** Length of the longest run of carriage returns directly before a line break in `Returns(r) + s`. */
  function LongestRun(s: string, r: nat): nat {
    if s == "" then 0
    else if s[0] == '\r' then LongestRun(s[1..], r + 1)
    else if s[0] == '\n' then Max(r, LongestRun(s[1..], 0))
    else LongestRun(s[1..], 0)
  }

  lemma {:induction false} ReturnsThenReturn(r: nat, t: string)
    ensures Returns(r) + ("\r" + t) == Returns(r + 1) + t
  {
    if r > 0 {
      ReturnsThenReturn(r - 1, t);
      Assoc("\r", Returns(r - 1), "\r" + t);
      Assoc("\r", Returns(r), t);
    }
  }

  lemma ReplaceStep(c: char, rest: string)
    requires c != '\r' || rest == "" || rest[0] != '\n'
    ensures Replace([c] + rest) == [c] + Replace(rest)
  {
    assert ([c] + rest)[1..] == rest;
  }

  lemma ReplaceBreak(rest: string)
    ensures Replace("\r" + ("\n" + rest)) == "\n" + Replace(rest)
  {
    var s := "\r" + ("\n" + rest);
    assert s[0] == '\r' && s[1] == '\n' && s[2..] == rest;
  }

  /** A run that is not followed by a line break is copied; one that is loses its last return. */
  lemma {:induction false} ReplaceAfterReturns(r: nat, t: string)
    requires t == "" || t[0] != '\r'
    ensures Replace(Returns(r) + t)
         == Returns(if t != "" && t[0] == '\n' && r > 0 then r - 1 else r) + Replace(t)
  {
    hide Replace;
    if r == 0 {
      assert Returns(r) + t == t && Returns(0) + Replace(t) == Replace(t);
    } else {
      Assoc("\r", Returns(r - 1), t);
      var rest := Returns(r - 1) + t;
      if r == 1 && t != "" && t[0] == '\n' {
        ReplaceBreak(t[1..]);
        ReplaceStep('\n', t[1..]);
        assert rest == t == "\n" + t[1..];
      } else {
        assert r > 1 ==> rest[0] == '\r';
        assert r == 1 ==> rest == t;
        ReplaceStep('\r', rest);
        ReplaceAfterReturns(r - 1, t);
        Assoc("\r", Returns(if t != "" && t[0] == '\n' then r - 2 else r - 1), Replace(t));
      }
    }
  }

  /** Replacing shortens each run before a line break by exactly one. */
  lemma {:induction false} ReplaceShortens(s: string, r: nat)
    ensures Replace(Returns(r) + s) == Shortened(s, r)
  {
    if s == "" {
      ReplaceAfterReturns(r, s);
    } else if s[0] == '\r' {
      ReplaceShortens(s[1..], r + 1);
      ReturnsThenReturn(r, s[1..]);
      assert s == "\r" + s[1..];
    } else {
      ReplaceShortens(s[1..], 0);
      ReplaceAfterReturns(r, s);
      assert Returns(0) + s[1..] == s[1..];
      ReplaceStep(s[0], s[1..]);
      assert s == [s[0]] + s[1..];
      var k := if s[0] == '\n' && r > 0 then r - 1 else r;
      Assoc(Returns(k), [s[0]], Shortened(s[1..], 0));
    }
  }

  lemma {:induction false} LongestRunAfterReturns(k: nat, t: string, r: nat)
    ensures LongestRun(Returns(k) + t, r) == LongestRun(t, r + k)
  {
    if k == 0 {
      assert Returns(k) + t == t;
    } else {
      LongestRunAfterReturns(k - 1, t, r + 1);
      Assoc("\r", Returns(k - 1), t);
      assert (Returns(k) + t)[1..] == Returns(k - 1) + t;
    }
  }

  /** The text after a run that is not followed by another return. */
  lemma ShortenedStep(s: string, r: nat)
    requires s != "" && s[0] != '\r'
    ensures Shortened(s, r)
         == Returns(if s[0] == '\n' && r > 0 then r - 1 else r) + ([s[0]] + Shortened(s[1..], 0))
  {
    Assoc(Returns(if s[0] == '\n' && r > 0 then r - 1 else r), [s[0]], Shortened(s[1..], 0));
  }

  lemma {:induction false} ShortenedRun(s: string, r: nat)
    ensures LongestRun(Shortened(s, r), 0) == if LongestRun(s, r) == 0 then 0 else LongestRun(s, r) - 1
  {
    if s == "" {
      LongestRunAfterReturns(r, "", 0);
      assert Returns(r) + "" == Returns(r);
    } else if s[0] == '\r' {
      ShortenedRun(s[1..], r + 1);
    } else {
      ShortenedRun(s[1..], 0);
      ShortenedStep(s, r);
      var k := if s[0] == '\n' && r > 0 then r - 1 else r;
      var rest := [s[0]] + Shortened(s[1..], 0);
      LongestRunAfterReturns(k, rest, 0);
      assert rest[1..] == Shortened(s[1..], 0);
    }
  }

  lemma {:induction false} ShortenedIsSame(s: string, r: nat)
    ensures Shortened(s, r) == Returns(r) + s <==> LongestRun(s, r) == 0
    ensures |Shortened(s, r)| <= r + |s|
  {
    ReturnsLength(r);
    if s == "" {
    } else if s[0] == '\r' {
      ShortenedIsSame(s[1..], r + 1);
      ReturnsThenReturn(r, s[1..]);
      assert s == "\r" + s[1..];
    } else {
      ShortenedIsSame(s[1..], 0);
      ShortenedStep(s, r);
      assert s == [s[0]] + s[1..] && Returns(0) + s[1..] == s[1..];
      hide Shortened;
      SamePrefix([s[0]], Shortened(s[1..], 0), s[1..]);
      SamePrefix(Returns(r), [s[0]] + Shortened(s[1..], 0), s);
      if s[0] == '\n' && r > 0 {
        ReturnsLength(r - 1);
      }
    }
  }

  lemma {:induction false} ReturnsLength(r: nat)
    ensures |Returns(r)| == r
  {
    if r > 0 {
      ReturnsLength(r - 1);
    }
  }

  // ---------------------------------------------------------------- main results

  function Runs(s: string): nat {
    LongestRun(s, 0)
  }

  /** One pass takes one off the longest run; texts without `\r\n` are the fixed points. */
  lemma OnePass(s: string)
    ensures Runs(Replace(s)) == if Runs(s) == 0 then 0 else Runs(s) - 1
    ensures Replace(s) == s <==> Runs(s) == 0
  {
    assert Returns(0) + s == s;
    ReplaceShortens(s, 0);
    ShortenedRun(s, 0);
    ShortenedIsSame(s, 0);
  }

  /** After `n` passes the text is stable exactly when `n` reaches the longest run. */
  lemma {:induction false} PassesNeeded(n: nat, s: string)
    ensures Replace(Passes(n, s)) == Passes(n, s) <==> n >= Runs(s)
  {
    OnePass(s);
    if n > 0 {
      PassesNeeded(n - 1, Replace(s));
    }
  }

  lemma {:induction false} RunsAreContained(s: string, r: nat, n: nat)
    requires n > 0
    ensures LongestRun(s, r) >= n <==> Contains(Returns(r) + s, Returns(n) + "\n")
  {
    ReturnsLength(n);
    ReturnsLength(r);
    if s == "" {
      NoReturnIsBreak(r);
      assert '\n' in Returns(n) + "\n" && '\n' !in Returns(r) + s;
      ContainsChar(Returns(r) + s, Returns(n) + "\n", '\n');
    } else if s[0] == '\r' {
      RunsAreContained(s[1..], r + 1, n);
      ReturnsThenReturn(r, s[1..]);
      assert s == "\r" + s[1..];
    } else {
      RunsAreContained(s[1..], 0, n);
      assert Returns(0) + s[1..] == s[1..];
      RunOrRest(r, s, n);
    }
  }

  lemma {:induction false} NoReturnIsBreak(r: nat)
    ensures forall i :: 0 <= i < |Returns(r)| ==> Returns(r)[i] == '\r'
  {
    if r > 0 {
      NoReturnIsBreak(r - 1);
    }
  }

  /** A run of `n` before a line break lies in the leading run or behind the character after it. */
  lemma RunOrRest(r: nat, s: string, n: nat)
    requires n > 0 && s != "" && s[0] != '\r'
    ensures Contains(Returns(r) + s, Returns(n) + "\n") <==> (s[0] == '\n' && r >= n) || Contains(s[1..], Returns(n) + "\n")
  {
    var t := Returns(n) + "\n";
    var all := Returns(r) + s;
    if Contains(all, t) {
      var i :| 0 <= i <= |all| - |t| && At(all, t, i);
      RunIsLeadingOrLater(r, s, n, i);
    }
    if s[0] == '\n' && r >= n {
      LeadingRun(r, s, n);
    }
    if Contains(s[1..], t) {
      assert all == (Returns(r) + [s[0]]) + s[1..] + "";
      ContainsMono(Returns(r) + [s[0]], s[1..], "", t);
    }
  }

  lemma RunIsLeadingOrLater(r: nat, s: string, n: nat, i: nat)
    requires n > 0 && s != "" && s[0] != '\r'
    requires At(Returns(r) + s, Returns(n) + "\n", i)
    ensures (s[0] == '\n' && r >= n) || Contains(s[1..], Returns(n) + "\n")
  {
    var t := Returns(n) + "\n";
    var all := Returns(r) + s;
    ReturnsLength(n);
    ReturnsLength(r);
    NoReturnIsBreak(r);
    NoReturnIsBreak(n);
    assert all[r] == s[0];
    if i > r {
      assert s[1..][i - r - 1..i - r - 1 + |t|] == all[i..i + |t|];
      assert At(s[1..], t, i - r - 1);
    } else {
      assert forall m :: i <= m < i + n + 1 ==> all[m] == t[m - i];
      assert all[i + n] == '\n';
      assert forall m :: 0 <= m < r ==> all[m] == '\r';
      assert forall m :: i <= m < i + n ==> all[m] == '\r';
    }
  }

  lemma LeadingRun(r: nat, s: string, n: nat)
    requires n <= r && s != "" && s[0] == '\n'
    ensures Contains(Returns(r) + s, Returns(n) + "\n")
  {
    ReturnsSplit(r - n, n);
    assert s == "\n" + s[1..];
    Assoc(Returns(r - n), Returns(n), s);
    Assoc(Returns(n), "\n", s[1..]);
    Assoc(Returns(r - n), Returns(n) + "\n", s[1..]);
    ContainsMiddle(Returns(r - n), Returns(n) + "\n", s[1..]);
  }

  lemma {:induction false} ReturnsSplit(a: nat, b: nat)
    ensures Returns(a + b) == Returns(a) + Returns(b)
  {
    if a > 0 {
      ReturnsSplit(a - 1, b);
    }
  }

  /** A second pass changes nothing exactly on texts without `\r\r\n`. */
  lemma OnePassIsEnough(s: string)
    ensures Replace(Replace(s)) == Replace(s) <==> !Contains(s, "\r\r\n")
  {
    OnePass(s);
    OnePass(Replace(s));
    RunsAreContained(s, 0, 2);
    assert Returns(0) + s == s;
    assert Returns(2) + "\n" == "\r\r\n" by {
      assert Returns(2) == "\r" + Returns(1) && Returns(1) == "\r" + Returns(0);
    }
  }

  /** The loop over the entries of a secret, in any order. */
  method ReplaceCarriageReturns(data: map<string, string>) returns (r: map<string, string>)
    ensures r == map k | k in data :: Replace(data[k])
  {
    r := data;
    var todo := data.Keys;
    while todo != {}
      invariant todo <= data.Keys && r.Keys == data.Keys
      invariant forall k :: k in todo ==> r[k] == data[k]
      invariant forall k :: k in data && k !in todo ==> r[k] == Replace(data[k])
      decreases |todo|
    {
      var k :| k in todo;
      if Contains(r[k], "\r\n") {
        r := r[k := Replace(r[k])];
      } else {
        UntouchedEntry(r[k]);
      }
      todo := todo - {k};
    }
  }

  /** Entries the loop skips are already clean. */
  lemma UntouchedEntry(s: string)
    ensures !Contains(s, "\r\n") <==> Replace(s) == s
  {
    OnePass(s);
    RunsAreContained(s, 0, 1);
    assert Returns(0) + s == s;
    assert Returns(1) + "\n" == "\r\n" by {
      assert Returns(1) == "\r" + Returns(0);
    }
  }
}
