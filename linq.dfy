/** The sequence operators the pipeline composes: Enumerable.SkipLast(1),
    Enumerable.SelectMany with the identity selector, and the stable
    Enumerable.OrderBy with an integer key. */
module Linq {

  /** SkipLast(1): every element except the last one; empty stays empty. */
  function SkipLast<T>(s: seq<T>): (r: seq<T>)
    ensures |r| == if |s| == 0 then 0 else |s| - 1
    ensures r <= s
  {
    if |s| == 0 then [] else s[..|s| - 1]
  }

  /** Sum of the lengths of the inner sequences, the reference count for Flatten. */
  function TotalLength<T>(ss: seq<seq<T>>): nat
  {
    if ss == [] then 0 else |ss[0]| + TotalLength(ss[1..])
  }

  /** SelectMany(x => x): the parts one after the other. */
  function Flatten<T>(ss: seq<seq<T>>): (r: seq<T>)
    ensures |r| == TotalLength(ss)
  {
    if ss == [] then [] else ss[0] + Flatten(ss[1..])
  }

  /** Flattening distributes over concatenation of the part lists. */
  lemma {:induction false} FlattenAppend<T>(a: seq<seq<T>>, b: seq<seq<T>>)
    ensures Flatten(a + b) == Flatten(a) + Flatten(b)
  {
    if a == [] {
      assert a + b == b;
    } else {
      assert (a + b)[0] == a[0];
      assert (a + b)[1..] == a[1..] + b;
      FlattenAppend(a[1..], b);
      calc {
        Flatten(a + b);
        a[0] + Flatten(a[1..] + b);
        a[0] + (Flatten(a[1..]) + Flatten(b));
        (a[0] + Flatten(a[1..])) + Flatten(b);
        Flatten(a) + Flatten(b);
      }
    }
  }

  /** Every part appears whole, after the parts before it and before the
      parts after it. */
  lemma FlattenParts<T>(ss: seq<seq<T>>, d: int)
    requires 0 <= d < |ss|
    ensures Flatten(ss) == Flatten(ss[..d]) + ss[d] + Flatten(ss[d + 1..])
  {
    var before, rest := ss[..d], ss[d..];
    assert ss == before + rest;
    FlattenAppend(before, rest);
    assert rest[0] == ss[d] && rest[1..] == ss[d + 1..];
    assert Flatten(rest) == ss[d] + Flatten(ss[d + 1..]);
  }

  /** An element is in the flattened sequence exactly when it is in one of the parts. */
  lemma {:induction false} FlattenMembership<T>(ss: seq<seq<T>>, x: T)
    ensures x in Flatten(ss) <==> exists d :: 0 <= d < |ss| && x in ss[d]
  {
    if ss != [] {
      FlattenMembership(ss[1..], x);
      assert forall d :: 1 <= d < |ss| ==> ss[d] == ss[1..][d - 1];
      if x in Flatten(ss[1..]) {
        var d :| 0 <= d < |ss[1..]| && x in ss[1..][d];
        assert x in ss[d + 1];
      }
    }
  }

  /** No two elements share a key. */
  predicate DistinctKeys<T>(s: seq<T>, key: T -> int)
  {
    forall i, j :: 0 <= i < j < |s| ==> key(s[i]) != key(s[j])
  }

  /** Keys strictly increase from left to right. */
  predicate StrictlySortedBy<T>(s: seq<T>, key: T -> int)
  {
    forall i, j :: 0 <= i < j < |s| ==> key(s[i]) < key(s[j])
  }

  /** Keys never decrease from left to right. */
  predicate SortedBy<T>(s: seq<T>, key: T -> int)
  {
    forall i, j :: 0 <= i < j < |s| ==> key(s[i]) <= key(s[j])
  }

  /** The elements of s whose key is k, in their order in s. */
  function WithKey<T>(s: seq<T>, key: T -> int, k: int): seq<T>
  {
    if s == [] then []
    else WithKey(s[..|s| - 1], key, k) + (if key(s[|s| - 1]) == k then [s[|s| - 1]] else [])
  }

  lemma {:induction false} WithKeyMembership<T>(s: seq<T>, key: T -> int, k: int, x: T)
    ensures x in WithKey(s, key, k) <==> x in s && key(x) == k
  {
    if s != [] {
      var s' := s[..|s| - 1];
      WithKeyMembership(s', key, k, x);
      assert s == s' + [s[|s| - 1]];
    }
  }

  lemma {:induction false} NoneWithKey<T>(s: seq<T>, key: T -> int, k: int)
    requires forall i :: 0 <= i < |s| ==> key(s[i]) != k
    ensures WithKey(s, key, k) == []
  {
    if s != [] {
      NoneWithKey(s[..|s| - 1], key, k);
    }
  }

  /** No key has more than one element. */
  ghost predicate AtMostOnePerKey<T>(s: seq<T>, key: T -> int)
  {
    forall k :: |WithKey(s, key, k)| <= 1
  }

  /** Keys are distinct exactly when no key has more than one element. */
  lemma {:induction false} DistinctKeysByWithKey<T>(s: seq<T>, key: T -> int)
    ensures DistinctKeys(s, key) <==> AtMostOnePerKey(s, key)
  {
    if s != [] {
      var s', x := s[..|s| - 1], s[|s| - 1];
      DistinctKeysByWithKey(s', key);
      assert s == s' + [x];
      DistinctToWithKey(s, s', x, key);
      WithKeyToDistinct(s, s', x, key);
    }
  }

  lemma DistinctToWithKey<T>(s: seq<T>, s': seq<T>, x: T, key: T -> int)
    requires s == s' + [x]
    requires DistinctKeys(s', key) ==> AtMostOnePerKey(s', key)
    ensures DistinctKeys(s, key) ==> AtMostOnePerKey(s, key)
  {
    if DistinctKeys(s, key) {
      DistinctStep(s, s', x, key);
    }
  }

  lemma DistinctStep<T>(s: seq<T>, s': seq<T>, x: T, key: T -> int)
    requires s == s' + [x] && DistinctKeys(s, key)
    requires DistinctKeys(s', key) ==> AtMostOnePerKey(s', key)
    ensures AtMostOnePerKey(s, key)
  {
    assert s' == s[..|s| - 1];
    assert DistinctKeys(s', key) by {
      forall i, j | 0 <= i < j < |s'| ensures key(s'[i]) != key(s'[j]) {
        assert s'[i] == s[i] && s'[j] == s[j];
      }
    }
    forall i | 0 <= i < |s'| ensures key(s'[i]) != key(x) {
      assert s'[i] == s[i] && x == s[|s| - 1];
      assert key(s[i]) != key(s[|s| - 1]);
    }
    NoneWithKey(s', key, key(x));
    forall k ensures |WithKey(s, key, k)| <= 1 {
      assert WithKey(s, key, k) == WithKey(s', key, k) + (if key(x) == k then [x] else []);
    }
  }

  lemma WithKeyToDistinct<T>(s: seq<T>, s': seq<T>, x: T, key: T -> int)
    requires s == s' + [x]
    requires AtMostOnePerKey(s', key) ==> DistinctKeys(s', key)
    ensures AtMostOnePerKey(s, key) ==> DistinctKeys(s, key)
  {
    if AtMostOnePerKey(s, key) {
      WithKeyStep(s, s', x, key);
    }
  }

  lemma WithKeyStep<T>(s: seq<T>, s': seq<T>, x: T, key: T -> int)
    requires s == s' + [x] && AtMostOnePerKey(s, key)
    requires AtMostOnePerKey(s', key) ==> DistinctKeys(s', key)
    ensures DistinctKeys(s, key)
  {
    assert s' == s[..|s| - 1];
    forall k ensures |WithKey(s', key, k)| <= 1 {
      assert WithKey(s, key, k) == WithKey(s', key, k) + (if key(x) == k then [x] else []);
      assert |WithKey(s, key, k)| <= 1;
    }
    assert WithKey(s, key, key(x)) == WithKey(s', key, key(x)) + [x];
    assert |WithKey(s, key, key(x))| <= 1;
    assert WithKey(s', key, key(x)) == [];
    forall i | 0 <= i < |s'| ensures key(s'[i]) != key(x) {
      WithKeyMembership(s', key, key(x), s'[i]);
    }
    forall i, j | 0 <= i < j < |s| ensures key(s[i]) != key(s[j]) {
      assert s[i] == s'[i];
      if j < |s'| {
        assert s[j] == s'[j];
      }
    }
  }

  /** A stable sort is strictly sorted exactly when the keys of its input are
      distinct, whatever the input's order. */
  lemma StableSortStrict<T>(r: seq<T>, s: seq<T>, key: T -> int)
    requires IsStableSortOf(r, s, key)
    ensures StrictlySortedBy(r, key) <==> DistinctKeys(s, key)
  {
    DistinctKeysByWithKey(r, key);
    DistinctKeysByWithKey(s, key);
    assert AtMostOnePerKey(r, key) <==> AtMostOnePerKey(s, key) by {
      assert forall k :: WithKey(r, key, k) == WithKey(s, key, k);
    }
    assert StrictlySortedBy(r, key) <==> DistinctKeys(r, key);
  }

  /** A stable sort of s by key: sorted, and for every key the elements having
      it appear in the same order as in s. */
  ghost predicate IsStableSortOf<T>(r: seq<T>, s: seq<T>, key: T -> int)
  {
    SortedBy(r, key) && forall k :: WithKey(r, key, k) == WithKey(s, key, k)
  }

  /** Places x after every element whose key is not greater than x's. */
  function InsertByKey<T>(s: seq<T>, x: T, key: T -> int): (r: seq<T>)
    ensures |r| == |s| + 1
    ensures multiset(r) == multiset(s) + multiset{x}
    ensures SortedBy(s, key) ==> SortedBy(r, key)
    ensures forall k :: WithKey(r, key, k) == WithKey(s, key, k) + (if key(x) == k then [x] else [])
  {
    if s == [] then
      InsertWithKeyBase(s, x, key);
      [x]
    else if key(s[|s| - 1]) <= key(x) then
      InsertWithKeyBase(s, x, key);
      s + [x]
    else
      var r' := InsertByKey(s[..|s| - 1], x, key);
      InsertSortedStep(s, x, key, r');
      InsertWithKeyStep(s, x, key, r');
      r' + [s[|s| - 1]]
  }

  lemma InsertWithKeyBase<T>(s: seq<T>, x: T, key: T -> int)
    ensures forall k :: WithKey(s + [x], key, k) == WithKey(s, key, k) + (if key(x) == k then [x] else [])
  {
    assert (s + [x])[..|s|] == s;
  }

  lemma InsertWithKeyStep<T>(s: seq<T>, x: T, key: T -> int, r': seq<T>)
    requires |s| > 0 && key(x) < key(s[|s| - 1])
    requires forall k :: WithKey(r', key, k) == WithKey(s[..|s| - 1], key, k) + (if key(x) == k then [x] else [])
    ensures forall k :: WithKey(r' + [s[|s| - 1]], key, k) == WithKey(s, key, k) + (if key(x) == k then [x] else [])
  {
    var s', last := s[..|s| - 1], s[|s| - 1];
    assert (r' + [last])[..|r'|] == r';
    forall k
      ensures WithKey(r' + [last], key, k) == WithKey(s, key, k) + (if key(x) == k then [x] else [])
    {
      assert WithKey(r' + [last], key, k) == WithKey(r', key, k) + (if key(last) == k then [last] else []);
      assert WithKey(s, key, k) == WithKey(s', key, k) + (if key(last) == k then [last] else []);
    }
  }

  lemma InsertSortedStep<T>(s: seq<T>, x: T, key: T -> int, r': seq<T>)
    requires |s| > 0 && key(x) < key(s[|s| - 1])
    requires multiset(r') == multiset(s[..|s| - 1]) + multiset{x}
    requires SortedBy(s[..|s| - 1], key) ==> SortedBy(r', key)
    ensures multiset(r' + [s[|s| - 1]]) == multiset(s) + multiset{x}
    ensures SortedBy(s, key) ==> SortedBy(r' + [s[|s| - 1]], key)
  {
    var s', last := s[..|s| - 1], s[|s| - 1];
    assert s == s' + [last];
    if SortedBy(s, key) {
      assert SortedBy(s', key);
      forall i | 0 <= i < |r'|
        ensures key(r'[i]) <= key(last)
      {
        assert r'[i] in multiset(r');
        if r'[i] != x {
          assert r'[i] in multiset(s');
          var j :| 0 <= j < |s'| && s'[j] == r'[i];
          assert s[j] == r'[i];
        }
      }
    }
  }

  /** OrderBy(key): the stable sort, built by inserting the elements one after
      the other. */
  function OrderBy<T>(s: seq<T>, key: T -> int): (r: seq<T>)
    ensures |r| == |s|
    ensures multiset(r) == multiset(s)
    ensures SortedBy(r, key)
    ensures forall k :: WithKey(r, key, k) == WithKey(s, key, k)
  {
    if s == [] then []
    else
      var s', last := s[..|s| - 1], s[|s| - 1];
      assert s == s' + [last];
      InsertByKey(OrderBy(s', key), last, key)
  }

  /** Two sequences that are both sorted by key and agree on every key's
      subsequence are equal: a stable sort has only one possible result. */
  lemma {:induction false} StableSortUnique<T>(a: seq<T>, b: seq<T>, key: T -> int)
    requires SortedBy(a, key) && SortedBy(b, key)
    requires forall k :: WithKey(a, key, k) == WithKey(b, key, k)
    ensures a == b
  {
    if a == [] {
      NoKeysMeansEmpty(b, key);
    } else if b == [] {
      NoKeysMeansEmpty(a, key);
    } else {
      var a', b' := a[..|a| - 1], b[..|b| - 1];
      LastElementsAgree(a, b, a', b', key);
      SortedPrefix(a, key);
      SortedPrefix(b, key);
      StableSortUnique(a', b', key);
      assert a == a' + [a[|a| - 1]];
      assert b == b' + [b[|b| - 1]];
    }
  }

  lemma SortedPrefix<T>(s: seq<T>, key: T -> int)
    requires s != [] && SortedBy(s, key)
    ensures SortedBy(s[..|s| - 1], key)
  {
  }

  /** Only the empty sequence has no element for any key. */
  lemma NoKeysMeansEmpty<T>(s: seq<T>, key: T -> int)
    requires forall k :: WithKey(s, key, k) == []
    ensures s == []
  {
    WithKeyOfLast(s, key);
  }

  /** The step of StableSortUnique: the last elements agree, and so do the
      subsequences of what precedes them. */
  lemma LastElementsAgree<T>(a: seq<T>, b: seq<T>, a': seq<T>, b': seq<T>, key: T -> int)
    requires a != [] && b != [] && SortedBy(a, key) && SortedBy(b, key)
    requires a' == a[..|a| - 1] && b' == b[..|b| - 1]
    requires forall k :: WithKey(a, key, k) == WithKey(b, key, k)
    ensures a[|a| - 1] == b[|b| - 1]
    ensures forall k :: WithKey(a', key, k) == WithKey(b', key, k)
  {
    var x, y := a[|a| - 1], b[|b| - 1];
    LastKeyBound(a, b, key);
    LastKeyBound(b, a, key);
    var kx := key(x);
    var wa, wb := WithKey(a', key, kx), WithKey(b', key, kx);
    assert WithKey(a, key, kx) == wa + [x];
    assert WithKey(b, key, kx) == wb + [y];
    assert wa == (wa + [x])[..|wa|] && wb == (wb + [y])[..|wb|];
    forall k | k != kx ensures WithKey(a', key, k) == WithKey(b', key, k) {
      assert WithKey(a, key, k) == WithKey(a', key, k);
      assert WithKey(b, key, k) == WithKey(b', key, k);
    }
  }

  /** A non-empty sequence has a non-empty subsequence for the key of its last element. */
  lemma WithKeyOfLast<T>(s: seq<T>, key: T -> int)
    ensures s != [] ==> WithKey(s, key, key(s[|s| - 1])) != []
  {
  }

  /** The key of b's last element occurs in a, so it is at most the key of a's last element. */
  lemma LastKeyBound<T>(a: seq<T>, b: seq<T>, key: T -> int)
    requires a != [] && b != [] && SortedBy(a, key)
    requires forall k :: WithKey(a, key, k) == WithKey(b, key, k)
    ensures key(b[|b| - 1]) <= key(a[|a| - 1])
  {
    var y := b[|b| - 1];
    assert WithKey(b, key, key(y)) == WithKey(b[..|b| - 1], key, key(y)) + [y];
    assert y in WithKey(a, key, key(y));
    WithKeyMembership(a, key, key(y), y);
    var i :| 0 <= i < |a| && a[i] == y;
    if i < |a| - 1 {
      assert key(a[i]) <= key(a[|a| - 1]);
    }
  }

  /** OrderBy is characterised by the stable-sort specification. */
  lemma OrderByIsTheStableSort<T>(s: seq<T>, r: seq<T>, key: T -> int)
    ensures IsStableSortOf(r, s, key) <==> r == OrderBy(s, key)
  {
    if IsStableSortOf(r, s, key) {
      StableSortUnique(r, OrderBy(s, key), key);
    }
  }

  /** Ordering an already ordered sequence changes nothing. */
  lemma OrderBySorted<T>(s: seq<T>, key: T -> int)
    requires SortedBy(s, key)
    ensures OrderBy(s, key) == s
  {
    StableSortUnique(OrderBy(s, key), s, key);
  }
}
