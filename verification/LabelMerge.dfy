/**
 `AppendUniqueKeyTOfTMaps`: label maps are merged entry by entry, in an order the language
 does not fix. Whatever the order, the outcome and the result are the same.
 */
module LabelMerge {

  import opened Wrappers

  // ---------------------------------------------------------------- merging

  predicate PairAgrees<T(==)>(a: Option<map<T, T>>, b: Option<map<T, T>>) {
    a.Some? && b.Some? ==> forall k :: k in a.value && k in b.value ==> a.value[k] == b.value[k]
  }

  /** All given maps agree on the keys they share. */
  predicate Agree<T(==)>(ms: seq<Option<map<T, T>>>) {
    forall i, j :: 0 <= i < j < |ms| ==> PairAgrees(ms[i], ms[j])
  }

  predicate AnyGiven<T(==)>(ms: seq<Option<map<T, T>>>) {
    exists i :: 0 <= i < |ms| && ms[i].Some?
  }

  predicate Contained<T(==)>(a: Option<map<T, T>>, m: map<T, T>) {
    a.Some? ==> forall k :: k in a.value ==> k in m && m[k] == a.value[k]
  }

  predicate Gives<T(==)>(a: Option<map<T, T>>, k: T) {
    a.Some? && k in a.value
  }

  /** `m` holds exactly the entries of the given maps. */
  ghost predicate IsUnion<T(!new)>(ms: seq<Option<map<T, T>>>, m: map<T, T>) {
    && (forall i :: 0 <= i < |ms| ==> Contained(ms[i], m))
    && (forall k :: k in m ==> exists i :: 0 <= i < |ms| && Gives(ms[i], k))
  }

  /** One map into the base, entry by entry in any order; fails on the first conflict. */
  method MergeInto<T(==)>(base: map<T, T>, add: map<T, T>) returns (r: Option<map<T, T>>)
    ensures r.Some? <==> forall k :: k in base && k in add ==> base[k] == add[k]
    ensures r.Some? ==> r.value == base + add
  {
    var m := base;
    var todo := add.Keys;
    while todo != {}
      invariant todo <= add.Keys
      invariant m.Keys == base.Keys + (add.Keys - todo)
      invariant forall k :: k in base ==> m[k] == base[k]
      invariant forall k :: k in add && k !in todo ==> m[k] == add[k]
      decreases |todo|
    {
      var k :| k in todo;
      if k !in m {
        m := m[k := add[k]];
      } else if m[k] != add[k] {
        return None;
      }
      todo := todo - {k};
    }
    assert m == base + add;
    return Some(m);
  }

  /**
   `AppendUniqueKeyTOfTMaps`: succeeds exactly when the maps agree, and then gives their union; the
   result is nil exactly when every map is nil.
   */
  method AppendUnique<T(==, !new)>(ms: seq<Option<map<T, T>>>) returns (ok: bool, base: Option<map<T, T>>)
    ensures ok <==> Agree(ms)
    ensures ok ==> (base.Some? <==> AnyGiven(ms))
    ensures ok && base.Some? ==> IsUnion(ms, base.value)
  {
    hide Agree, AnyGiven, IsUnion;
    base := None;
    var i := 0;
    NothingYet(ms[..0]);
    while i < |ms|
      invariant 0 <= i <= |ms|
      invariant Agree(ms[..i])
      invariant base.Some? <==> AnyGiven(ms[..i])
      invariant base.Some? ==> IsUnion(ms[..i], base.value)
    {
      var from := if base.None? then map[] else base.value;
      NextMap(ms, i, from, base.None?);
      if ms[i].Some? {
        var r := MergeInto(from, ms[i].value);
        if r.None? {
          return false, None;
        }
        base := r;
      }
      i := i + 1;
    }
    assert ms[..|ms|] == ms;
    return true, base;
  }

  lemma NothingYet<T>(ms: seq<Option<map<T, T>>>)
    requires ms == []
    ensures Agree(ms) && !AnyGiven(ms)
  {
  }

  lemma NextMap<T(!new)>(ms: seq<Option<map<T, T>>>, i: nat, from: map<T, T>, empty: bool)
    requires i < |ms| && Agree(ms[..i])
    requires if empty then from == map[] && !AnyGiven(ms[..i]) else IsUnion(ms[..i], from)
    ensures Agree(ms[..i + 1]) <==> PairAgrees(Some(from), ms[i])
    ensures AnyGiven(ms[..i + 1]) <==> AnyGiven(ms[..i]) || ms[i].Some?
    ensures PairAgrees(Some(from), ms[i]) ==> IsUnion(ms[..i + 1], if ms[i].Some? then from + ms[i].value else from)
    ensures Agree(ms) ==> Agree(ms[..i + 1])
  {
    assert ms[..i + 1] == ms[..i] + [ms[i]];
    if empty {
      NothingGiven(ms[..i]);
    }
    hide Agree, AnyGiven, IsUnion, PairAgrees;
    AgreeSnoc(ms[..i], ms[i]);
    GivenSnoc(ms[..i], ms[i]);
    UnionSnoc(ms[..i], from, ms[i]);
    if Agree(ms) {
      AgreePrefix(ms, i + 1);
    }
  }

  lemma AgreeSnoc<T>(ms: seq<Option<map<T, T>>>, x: Option<map<T, T>>)
    ensures Agree(ms + [x]) <==> Agree(ms) && forall i :: 0 <= i < |ms| ==> PairAgrees(ms[i], x)
  {
    hide PairAgrees;
    var more := ms + [x];
    assert forall i :: 0 <= i < |ms| ==> more[i] == ms[i];
    assert more[|ms|] == x;
  }

  lemma AgreePrefix<T>(ms: seq<Option<map<T, T>>>, n: nat)
    requires n <= |ms| && Agree(ms)
    ensures Agree(ms[..n])
  {
    hide PairAgrees;
  }

  lemma GivenSnoc<T>(ms: seq<Option<map<T, T>>>, x: Option<map<T, T>>)
    ensures AnyGiven(ms + [x]) <==> AnyGiven(ms) || x.Some?
  {
    var more := ms + [x];
    assert forall i :: 0 <= i < |ms| ==> more[i] == ms[i];
    assert more[|ms|] == x;
  }

  lemma NothingGiven<T(!new)>(ms: seq<Option<map<T, T>>>)
    requires !AnyGiven(ms)
    ensures IsUnion(ms, map[])
  {
  }

  /** A further map agrees with the union exactly when it agrees with every map in it. */
  lemma UnionSnoc<T(!new)>(ms: seq<Option<map<T, T>>>, m: map<T, T>, x: Option<map<T, T>>)
    requires IsUnion(ms, m)
    ensures PairAgrees(Some(m), x) <==> forall i :: 0 <= i < |ms| ==> PairAgrees(ms[i], x)
    ensures PairAgrees(Some(m), x) ==> IsUnion(ms + [x], if x.Some? then m + x.value else m)
  {
    hide IsUnion, PairAgrees;
    if forall i :: 0 <= i < |ms| ==> PairAgrees(ms[i], x) {
      AllAgree(ms, m, x);
    }
    if PairAgrees(Some(m), x) {
      forall i | 0 <= i < |ms| ensures PairAgrees(ms[i], x) {
        PartAgrees(ms, m, x, i);
      }
      UnionGrows(ms, m, x);
    }
  }

  lemma AllAgree<T(!new)>(ms: seq<Option<map<T, T>>>, m: map<T, T>, x: Option<map<T, T>>)
    requires IsUnion(ms, m) && forall i :: 0 <= i < |ms| ==> PairAgrees(ms[i], x)
    ensures PairAgrees(Some(m), x)
  {
    forall k | x.Some? && k in m && k in x.value ensures m[k] == x.value[k] {
      var i :| 0 <= i < |ms| && Gives(ms[i], k);
      assert Contained(ms[i], m) && PairAgrees(ms[i], x);
    }
  }

  lemma PartAgrees<T(!new)>(ms: seq<Option<map<T, T>>>, m: map<T, T>, x: Option<map<T, T>>, i: nat)
    requires IsUnion(ms, m) && PairAgrees(Some(m), x) && i < |ms|
    ensures PairAgrees(ms[i], x)
  {
    assert Contained(ms[i], m);
  }

  lemma UnionGrows<T(!new)>(ms: seq<Option<map<T, T>>>, m: map<T, T>, x: Option<map<T, T>>)
    requires IsUnion(ms, m) && PairAgrees(Some(m), x)
    ensures IsUnion(ms + [x], if x.Some? then m + x.value else m)
  {
    var more := ms + [x];
    var out := if x.Some? then m + x.value else m;
    forall i | 0 <= i < |more| ensures Contained(more[i], out) {
      if i < |ms| {
        assert more[i] == ms[i] && Contained(ms[i], m);
      }
    }
    forall k | k in out ensures exists i :: 0 <= i < |more| && Gives(more[i], k) {
      if Gives(x, k) {
        assert more[|ms|] == x;
      } else {
        var i :| 0 <= i < |ms| && Gives(ms[i], k);
        assert more[i] == ms[i];
      }
    }
  }

  /** Two unions of the same maps are equal: the order of the walk does not show. */
  lemma UnionIsUnique<T(!new)>(ms: seq<Option<map<T, T>>>, m: map<T, T>, n: map<T, T>)
    requires IsUnion(ms, m) && IsUnion(ms, n)
    ensures m == n
  {
    forall k ensures (k in m <==> k in n) && (k in m ==> m[k] == n[k]) {
      if k in m {
        var i :| 0 <= i < |ms| && Gives(ms[i], k);
        assert Contained(ms[i], m) && Contained(ms[i], n);
      }
      if k in n {
        var i :| 0 <= i < |ms| && Gives(ms[i], k);
        assert Contained(ms[i], m) && Contained(ms[i], n);
      }
    }
  }
}
