/**
 * `json.dumps(..., sort_keys=True)` writes every dict with its keys in ascending order, so the
 * text does not depend on the order in which the keys were inserted. This module isolates that
 * step: `Canon` sorts the members of every dict (recursively), and the main result,
 * `CanonIgnoresKeyOrder`, says two values that differ only in key order have the same canonical
 * form.
 */
module Canonical {
  import opened Json

  /** Python's `<` on `str`: lexicographic by code point, a proper prefix sorting first. */
  predicate KeyLess(a: string, b: string)
    decreases |a|
  {
    |b| > 0 && (|a| == 0 || a[0] < b[0] || (a[0] == b[0] && KeyLess(a[1..], b[1..])))
  }

  lemma {:induction false} KeyLessIrreflexive(a: string)
    ensures !KeyLess(a, a)
    decreases |a|
  {
    if |a| > 0 {
      KeyLessIrreflexive(a[1..]);
    }
  }

  lemma {:induction false} KeyLessTransitive(a: string, b: string, c: string)
    requires KeyLess(a, b) && KeyLess(b, c)
    ensures KeyLess(a, c)
    decreases |a|
  {
    if |a| > 0 && a[0] == b[0] && b[0] == c[0] {
      KeyLessTransitive(a[1..], b[1..], c[1..]);
    }
  }

  lemma {:induction false} KeyLessTotal(a: string, b: string)
    requires a != b
    ensures KeyLess(a, b) || KeyLess(b, a)
    decreases |a|
  {
    if |a| > 0 && |b| > 0 && a[0] == b[0] {
      assert a == [a[0]] + a[1..] && b == [b[0]] + b[1..];
      KeyLessTotal(a[1..], b[1..]);
    }
  }

  lemma KeyLessAsymmetric(a: string, b: string)
    requires KeyLess(a, b)
    ensures !KeyLess(b, a)
  {
    if KeyLess(b, a) {
      KeyLessTransitive(a, b, a);
      KeyLessIrreflexive(a);
    }
  }

  /** Keys never go down along the sequence. */
  predicate Sorted(ms: seq<Member>) {
    forall i, j :: 0 <= i < j < |ms| ==> !KeyLess(ms[j].key, ms[i].key)
  }

  /** Keys strictly go up along the sequence: the order a sorted Python dict is written in. */
  predicate StrictlySorted(ms: seq<Member>) {
    forall i, j :: 0 <= i < j < |ms| ==> KeyLess(ms[i].key, ms[j].key)
  }

  /** Places `m` after every member whose key is not greater than its own (a stable insertion). */
  function InsertMember(ms: seq<Member>, m: Member): (r: seq<Member>)
    ensures multiset(r) == multiset(ms) + multiset{m}
    ensures |r| == |ms| + 1
    ensures Sorted(ms) ==> Sorted(r)
  {
    if |ms| == 0 then [m]
    else if KeyLess(m.key, ms[0].key) then
      var r := [m] + ms;
      SortedCons(m, ms);
      r
    else
      var rest := InsertMember(ms[1..], m);
      var r := [ms[0]] + rest;
      assert ms == [ms[0]] + ms[1..];
      InsertKeepsHeadFirst(ms, m, rest);
      r
  }

  lemma SortedCons(m: Member, ms: seq<Member>)
    requires |ms| > 0 && KeyLess(m.key, ms[0].key)
    ensures Sorted(ms) ==> Sorted([m] + ms)
  {
    var r := [m] + ms;
    forall i, j | 0 <= i < j < |r| && Sorted(ms)
      ensures !KeyLess(r[j].key, r[i].key)
    {
      if i == 0 {
        if j > 1 {
          assert !KeyLess(ms[j - 1].key, ms[0].key);
          if ms[j - 1].key == ms[0].key {
            KeyLessAsymmetric(m.key, ms[0].key);
          } else {
            KeyLessTotal(ms[j - 1].key, ms[0].key);
            KeyLessTransitive(m.key, ms[0].key, ms[j - 1].key);
            KeyLessAsymmetric(m.key, ms[j - 1].key);
          }
        } else {
          KeyLessAsymmetric(m.key, ms[0].key);
        }
      }
    }
  }

  /** The step case of `InsertMember`: the old head stays in front of the rest. */
  lemma InsertKeepsHeadFirst(ms: seq<Member>, m: Member, rest: seq<Member>)
    requires |ms| > 0 && !KeyLess(m.key, ms[0].key)
    requires multiset(rest) == multiset(ms[1..]) + multiset{m}
    requires Sorted(ms[1..]) ==> Sorted(rest)
    ensures Sorted(ms) ==> Sorted([ms[0]] + rest)
  {
    if Sorted(ms) {
      var r := [ms[0]] + rest;
      forall i, j | 0 <= i < j < |r|
        ensures !KeyLess(r[j].key, r[i].key)
      {
        if i == 0 {
          assert r[j] in multiset(rest);
          if r[j] == m {
          } else {
            assert r[j] in multiset(ms[1..]);
            var k :| 0 <= k < |ms[1..]| && ms[1..][k] == r[j];
            assert ms[k + 1] == r[j];
          }
        }
      }
    }
  }

  /** Python's `sorted(d.items())` on a dict's members (insertion sort, stable). */
  function SortMembers(ms: seq<Member>): (r: seq<Member>)
    ensures multiset(r) == multiset(ms)
    ensures Sorted(r)
  {
    if |ms| == 0 then []
    else
      assert ms == ms[..|ms| - 1] + [ms[|ms| - 1]];
      InsertMember(SortMembers(ms[..|ms| - 1]), ms[|ms| - 1])
  }

  /** With distinct keys the non-strict order is strict. */
  lemma SortedDistinctIsStrict(ms: seq<Member>)
    requires Sorted(ms) && DistinctKeys(ms)
    ensures StrictlySorted(ms)
  {
    forall i, j | 0 <= i < j < |ms|
      ensures KeyLess(ms[i].key, ms[j].key)
    {
      KeyLessTotal(ms[i].key, ms[j].key);
    }
  }

  /** Two sequences with the same members that both list their keys in strictly increasing order
      are the same sequence: there is only one sorted order. */
  lemma {:induction false} StrictlySortedUnique(xs: seq<Member>, ys: seq<Member>)
    requires StrictlySorted(xs) && StrictlySorted(ys)
    requires multiset(xs) == multiset(ys)
    ensures xs == ys
    decreases |xs|
  {
    assert |ys| == |multiset(ys)| == |multiset(xs)| == |xs|;
    if |xs| > 0 {
      SortedHeadsAgree(xs, ys);
      var x := xs[0];
      assert xs == [x] + xs[1..] && ys == [x] + ys[1..];
      assert multiset(xs[1..]) == multiset(xs) - multiset{x};
      assert multiset(ys[1..]) == multiset(ys) - multiset{x};
      StrictlySortedUnique(xs[1..], ys[1..]);
    }
  }

  /** The first member of a strictly sorted sequence is the one with the least key. */
  lemma SortedHeadsAgree(xs: seq<Member>, ys: seq<Member>)
    requires StrictlySorted(xs) && StrictlySorted(ys)
    requires multiset(xs) == multiset(ys)
    requires |xs| > 0 && |ys| > 0
    ensures xs[0] == ys[0]
  {
    assert xs[0] in multiset(ys);
    var j :| 0 <= j < |ys| && ys[j] == xs[0];
    assert ys[0] in multiset(xs);
    var i :| 0 <= i < |xs| && xs[i] == ys[0];
    if j != 0 {
      if i == 0 {
        KeyLessIrreflexive(xs[0].key);
      } else {
        KeyLessAsymmetric(xs[0].key, xs[i].key);
      }
    }
  }

  /** The members with every value put in canonical form; keys and their order unchanged. */
  function CanonMembers(ms: seq<Member>): (r: seq<Member>)
    ensures |r| == |ms|
    ensures forall i :: 0 <= i < |ms| ==> r[i].key == ms[i].key
    decreases ms
  {
    if |ms| == 0 then []
    else [Member(ms[0].key, Canon(ms[0].value))] + CanonMembers(ms[1..])
  }

  function CanonItems(xs: seq<Json>): (r: seq<Json>)
    ensures |r| == |xs|
    decreases xs
  {
    if |xs| == 0 then [] else [Canon(xs[0])] + CanonItems(xs[1..])
  }

  /** The value `json.dumps(..., sort_keys=True)` actually writes: every dict's members in key order. */
  function Canon(v: Json): Json
    decreases v
  {
    match v
    case Arr(xs) => Arr(CanonItems(xs))
    case Obj(ms) => Obj(SortMembers(CanonMembers(ms)))
    case _ => v
  }

  lemma CanonMembersAt(ms: seq<Member>, i: int)
    requires 0 <= i < |ms|
    ensures CanonMembers(ms)[i] == Member(ms[i].key, Canon(ms[i].value))
  {
    if i > 0 {
      CanonMembersAt(ms[1..], i - 1);
    }
  }

  lemma CanonItemsAt(xs: seq<Json>, i: int)
    requires 0 <= i < |xs|
    ensures CanonItems(xs)[i] == Canon(xs[i])
  {
    if i > 0 {
      CanonItemsAt(xs[1..], i - 1);
    }
  }

  /** `a` and `b` are the same value except, possibly, for the insertion order of dict keys at any
      depth. Each dict's members must correspond key by key, in both directions. */
  predicate SameUpToKeyOrder(a: Json, b: Json)
    decreases a, 2
  {
    match a
    case Arr(xs) =>
      b.Arr? && |xs| == |b.items| &&
      forall i :: 0 <= i < |xs| ==> SameUpToKeyOrder(xs[i], b.items[i])
    case Obj(ms) =>
      b.Obj? && |ms| == |b.members| &&
      (forall i :: 0 <= i < |ms| ==> MatchedIn(ms[i], b.members)) &&
      (forall j :: 0 <= j < |b.members| ==> MatchedFrom(a, ms, b.members[j]))
    case _ => a == b
  }

  /** Some member of `ns` has the key of `m` and a value equal to its value up to key order. */
  predicate MatchedIn(m: Member, ns: seq<Member>)
    decreases m, 1
  {
    exists j :: 0 <= j < |ns| && ns[j].key == m.key && SameUpToKeyOrder(m.value, ns[j].value)
  }

  /** Some member of `ms` (the members of `a`) matches `n` in the sense of `MatchedIn`. */
  predicate MatchedFrom(a: Json, ms: seq<Member>, n: Member)
    requires a == Obj(ms)
    decreases a, 1
  {
    exists i :: 0 <= i < |ms| && ms[i].key == n.key && SameUpToKeyOrder(ms[i].value, n.value)
  }

  /** Reordering the keys of any dict inside a value does not change its canonical form, hence
      (see `Render.Serialize`) not the text `json.dumps(..., sort_keys=True)` writes. */
  lemma {:induction false} CanonIgnoresKeyOrder(a: Json, b: Json)
    requires WellFormed(a) && WellFormed(b)
    requires SameUpToKeyOrder(a, b)
    ensures Canon(a) == Canon(b)
    decreases a, 1
  {
    match a
    case Arr(xs) => CanonItemsIgnoreKeyOrder(a, xs, b.items);
    case Obj(ms) => CanonMembersIgnoreKeyOrder(a, ms, b.members);
    case _ =>
  }

  lemma {:induction false} CanonItemsIgnoreKeyOrder(a: Json, xs: seq<Json>, ys: seq<Json>)
    requires a == Arr(xs)
    requires forall i :: 0 <= i < |xs| ==> WellFormed(xs[i])
    requires forall i :: 0 <= i < |ys| ==> WellFormed(ys[i])
    requires |xs| == |ys| && forall i :: 0 <= i < |xs| ==> SameUpToKeyOrder(xs[i], ys[i])
    ensures CanonItems(xs) == CanonItems(ys)
    decreases a, 0
  {
    forall i | 0 <= i < |xs|
      ensures Canon(xs[i]) == Canon(ys[i])
    {
      CanonIgnoresKeyOrder(xs[i], ys[i]);
    }
    CanonItemsPointwise(xs, ys);
  }

  lemma {:induction false} CanonMembersIgnoreKeyOrder(a: Json, ms: seq<Member>, ns: seq<Member>)
    requires a == Obj(ms)
    requires DistinctKeys(ms) && forall i :: 0 <= i < |ms| ==> WellFormed(ms[i].value)
    requires DistinctKeys(ns) && forall j :: 0 <= j < |ns| ==> WellFormed(ns[j].value)
    requires forall i :: 0 <= i < |ms| ==> MatchedIn(ms[i], ns)
    requires forall j :: 0 <= j < |ns| ==> MatchedFrom(a, ms, ns[j])
    ensures SortMembers(CanonMembers(ms)) == SortMembers(CanonMembers(ns))
    decreases a, 0
  {
    var cm, cn := CanonMembers(ms), CanonMembers(ns);
    forall i | 0 <= i < |cm|
      ensures cm[i] in multiset(cn)
    {
      assert MatchedIn(ms[i], ns);
      var j :| 0 <= j < |ns| && ns[j].key == ms[i].key && SameUpToKeyOrder(ms[i].value, ns[j].value);
      CanonIgnoresKeyOrder(ms[i].value, ns[j].value);
      CanonMembersAt(ms, i);
      CanonMembersAt(ns, j);
      assert cm[i] == cn[j];
    }
    forall j | 0 <= j < |cn|
      ensures cn[j] in multiset(cm)
    {
      assert MatchedFrom(a, ms, ns[j]);
      var i :| 0 <= i < |ms| && ms[i].key == ns[j].key && SameUpToKeyOrder(ms[i].value, ns[j].value);
      CanonIgnoresKeyOrder(ms[i].value, ns[j].value);
      CanonMembersAt(ms, i);
      CanonMembersAt(ns, j);
      assert cm[i] == cn[j];
    }
    CanonMembersKeepsDistinctKeys(ms);
    CanonMembersKeepsDistinctKeys(ns);
    SortIgnoresOrder(cm, cn);
  }

  lemma CanonItemsPointwise(xs: seq<Json>, ys: seq<Json>)
    requires |xs| == |ys|
    requires forall i :: 0 <= i < |xs| ==> Canon(xs[i]) == Canon(ys[i])
    ensures CanonItems(xs) == CanonItems(ys)
  {
    forall i | 0 <= i < |xs|
      ensures CanonItems(xs)[i] == CanonItems(ys)[i]
    {
      CanonItemsAt(xs, i);
      CanonItemsAt(ys, i);
    }
  }

  lemma CanonMembersKeepsDistinctKeys(ms: seq<Member>)
    requires DistinctKeys(ms)
    ensures DistinctKeys(CanonMembers(ms))
  {
  }

  /** For member lists with distinct keys, sorting forgets the order the members came in. */
  lemma SortIgnoresOrder(xs: seq<Member>, ys: seq<Member>)
    requires DistinctKeys(xs) && DistinctKeys(ys)
    requires forall i :: 0 <= i < |xs| ==> xs[i] in multiset(ys)
    requires forall j :: 0 <= j < |ys| ==> ys[j] in multiset(xs)
    ensures SortMembers(xs) == SortMembers(ys)
  {
    DistinctMultisetEqual(xs, ys);
    var sx, sy := SortMembers(xs), SortMembers(ys);
    PermutationKeepsDistinctKeys(sx, xs);
    PermutationKeepsDistinctKeys(sy, ys);
    SortedDistinctIsStrict(sx);
    SortedDistinctIsStrict(sy);
    StrictlySortedUnique(sx, sy);
  }

  /** Two duplicate-free sequences with the same elements have the same multiset. */
  lemma DistinctMultisetEqual(xs: seq<Member>, ys: seq<Member>)
    requires DistinctKeys(xs) && DistinctKeys(ys)
    requires forall i :: 0 <= i < |xs| ==> xs[i] in multiset(ys)
    requires forall j :: 0 <= j < |ys| ==> ys[j] in multiset(xs)
    ensures multiset(xs) == multiset(ys)
  {
    DistinctCountsOne(xs);
    DistinctCountsOne(ys);
    forall m
      ensures multiset(xs)[m] == multiset(ys)[m]
    {
      if m in multiset(xs) {
        var i :| 0 <= i < |xs| && xs[i] == m;
      }
      if m in multiset(ys) {
        var j :| 0 <= j < |ys| && ys[j] == m;
      }
    }
  }

  /** In a sequence with distinct keys every element occurs at most once. */
  lemma {:induction false} DistinctCountsOne(xs: seq<Member>)
    requires DistinctKeys(xs)
    ensures forall m :: multiset(xs)[m] <= 1
  {
    if |xs| > 0 {
      var tail := xs[1..];
      DistinctCountsOne(tail);
      assert xs == [xs[0]] + tail;
      forall k | 0 <= k < |tail|
        ensures tail[k].key != xs[0].key
      {
        assert tail[k] == xs[k + 1];
      }
      assert xs[0] !in tail;
      assert xs[0] !in multiset(tail);
    }
  }

  /** A permutation of a member list with distinct keys has distinct keys. */
  lemma PermutationKeepsDistinctKeys(r: seq<Member>, ms: seq<Member>)
    requires DistinctKeys(ms) && multiset(r) == multiset(ms)
    ensures DistinctKeys(r)
  {
    DistinctCountsOne(ms);
    forall i, j | 0 <= i < j < |r|
      ensures r[i].key != r[j].key
    {
      assert r[i] in multiset(ms) && r[j] in multiset(ms);
      var p :| 0 <= p < |ms| && ms[p] == r[i];
      var q :| 0 <= q < |ms| && ms[q] == r[j];
      if r[i] == r[j] {
        RepeatedCountsTwice(r, i, j);
      }
    }
  }

  /** An element found at two positions occurs at least twice. */
  lemma RepeatedCountsTwice(r: seq<Member>, i: int, j: int)
    requires 0 <= i < j < |r| && r[i] == r[j]
    ensures multiset(r)[r[i]] >= 2
  {
    var m := r[i];
    assert r == r[..i] + [m] + r[i + 1..j] + [m] + r[j + 1..];
  }

  /** Every value is the same as itself up to key order. */
  lemma {:induction false} SameUpToKeyOrderReflexive(v: Json)
    ensures SameUpToKeyOrder(v, v)
    decreases v
  {
    match v
    case Arr(xs) =>
      forall i | 0 <= i < |xs|
        ensures SameUpToKeyOrder(xs[i], xs[i])
      {
        SameUpToKeyOrderReflexive(xs[i]);
      }
    case Obj(ms) =>
      forall i | 0 <= i < |ms|
        ensures MatchedIn(ms[i], ms) && MatchedFrom(v, ms, ms[i])
      {
        SameUpToKeyOrderReflexive(ms[i].value);
      }
    case _ =>
  }

  /** Listing the members of a dict in another order (a permutation, as inserting the same keys in
      another order produces) gives a value that is the same up to key order. */
  lemma PermutedDictSameUpToKeyOrder(ms: seq<Member>, ns: seq<Member>)
    requires multiset(ms) == multiset(ns)
    ensures SameUpToKeyOrder(Obj(ms), Obj(ns))
  {
    assert |ms| == |multiset(ms)| == |multiset(ns)| == |ns|;
    forall i | 0 <= i < |ms|
      ensures MatchedIn(ms[i], ns)
    {
      assert ms[i] in multiset(ns);
      var j :| 0 <= j < |ns| && ns[j] == ms[i];
      SameUpToKeyOrderReflexive(ms[i].value);
    }
    forall j | 0 <= j < |ns|
      ensures MatchedFrom(Obj(ms), ms, ns[j])
    {
      assert ns[j] in multiset(ms);
      var i :| 0 <= i < |ms| && ms[i] == ns[j];
      SameUpToKeyOrderReflexive(ms[i].value);
    }
  }

  /** The converse of `CanonIgnoresKeyOrder`: values with the same canonical form differ at most
      in key order. */
  lemma {:induction false} SameCanonIsSameUpToKeyOrder(a: Json, b: Json)
    requires Canon(a) == Canon(b)
    ensures SameUpToKeyOrder(a, b)
    decreases a, 2
  {
    match a
    case Arr(xs) =>
      var ys := b.items;
      forall i | 0 <= i < |xs|
        ensures SameUpToKeyOrder(xs[i], ys[i])
      {
        CanonItemsAt(xs, i);
        CanonItemsAt(ys, i);
        SameCanonIsSameUpToKeyOrder(xs[i], ys[i]);
      }
    case Obj(ms) => SameSortedCanonMembersMatch(a, ms, b.members);
    case _ =>
  }

  lemma {:induction false} SameSortedCanonMembersMatch(a: Json, ms: seq<Member>, ns: seq<Member>)
    requires a == Obj(ms)
    requires SortMembers(CanonMembers(ms)) == SortMembers(CanonMembers(ns))
    ensures |ms| == |ns|
    ensures forall i :: 0 <= i < |ms| ==> MatchedIn(ms[i], ns)
    ensures forall j :: 0 <= j < |ns| ==> MatchedFrom(a, ms, ns[j])
    decreases a, 1
  {
    SameSortSameMembers(CanonMembers(ms), CanonMembers(ns));
    ForwardMatches(a, ms, ns);
    BackwardMatches(a, ms, ns);
  }

  lemma {:induction false} ForwardMatches(a: Json, ms: seq<Member>, ns: seq<Member>)
    requires a == Obj(ms)
    requires multiset(CanonMembers(ms)) == multiset(CanonMembers(ns))
    ensures forall i :: 0 <= i < |ms| ==> MatchedIn(ms[i], ns)
    decreases a, 0
  {
    var cm, cn := CanonMembers(ms), CanonMembers(ns);
    forall i | 0 <= i < |ms|
      ensures MatchedIn(ms[i], ns)
    {
      assert cm[i] in multiset(cn);
      var j :| 0 <= j < |cn| && cn[j] == cm[i];
      CanonMembersAt(ms, i);
      CanonMembersAt(ns, j);
      SameCanonIsSameUpToKeyOrder(ms[i].value, ns[j].value);
      assert ns[j].key == ms[i].key && SameUpToKeyOrder(ms[i].value, ns[j].value);
    }
  }

  lemma {:induction false} BackwardMatches(a: Json, ms: seq<Member>, ns: seq<Member>)
    requires a == Obj(ms)
    requires multiset(CanonMembers(ms)) == multiset(CanonMembers(ns))
    ensures forall j :: 0 <= j < |ns| ==> MatchedFrom(a, ms, ns[j])
    decreases a, 0
  {
    var cm, cn := CanonMembers(ms), CanonMembers(ns);
    forall j | 0 <= j < |ns|
      ensures MatchedFrom(a, ms, ns[j])
    {
      assert cn[j] in multiset(cm);
      var i :| 0 <= i < |cm| && cm[i] == cn[j];
      CanonMembersAt(ms, i);
      CanonMembersAt(ns, j);
      SameCanonIsSameUpToKeyOrder(ms[i].value, ns[j].value);
      assert ms[i].key == ns[j].key && SameUpToKeyOrder(ms[i].value, ns[j].value);
    }
  }

  lemma SameSortSameMembers(xs: seq<Member>, ys: seq<Member>)
    requires SortMembers(xs) == SortMembers(ys)
    ensures multiset(xs) == multiset(ys)
    ensures |xs| == |ys|
  {
    assert |xs| == |multiset(xs)| == |multiset(ys)| == |ys|;
  }
}
