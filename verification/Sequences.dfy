/** Lists as Go loops build them: first occurrences, filtered copies, sorted permutations. */
module Sequences {
  import opened Wrappers

  ghost predicate NoDuplicates<T>(s: seq<T>) {
    forall i, j :: 0 <= i < j < |s| ==> s[i] != s[j]
  }

  /** What a loop with a `seen` map appends: every element, at its first occurrence. */
  function Unique<T(==,!new)>(s: seq<T>): (r: seq<T>)
    ensures forall x :: x in r <==> x in s
  {
    if s == [] then [] else
      var r := Unique(s[..|s| - 1]);
      if s[|s| - 1] in r then r else r + [s[|s| - 1]]
  }

  lemma {:induction false} UniqueIsDistinct<T(!new)>(s: seq<T>)
    ensures NoDuplicates(Unique(s))
  {
    if s != [] { UniqueIsDistinct(s[..|s| - 1]); }
  }

  lemma {:induction false} UniqueSnoc<T(!new)>(s: seq<T>, x: T)
    ensures Unique(s + [x]) == if x in s then Unique(s) else Unique(s) + [x]
  {
    assert (s + [x])[..|s|] == s;
  }

  lemma {:induction false} UniqueOfDistinct<T(!new)>(s: seq<T>)
    requires NoDuplicates(s)
    ensures Unique(s) == s
  {
    if s != [] {
      var init := s[..|s| - 1];
      assert s == init + [s[|s| - 1]];
      UniqueOfDistinct(init);
    }
  }

  lemma {:induction false} UniqueAbsorbs<T(!new)>(s: seq<T>, t: seq<T>)
    requires forall x :: x in t ==> x in s
    ensures Unique(s + t) == Unique(s)
  {
    if t == [] {
      assert s + t == s;
    } else {
      var t', x := t[..|t| - 1], t[|t| - 1];
      assert s + t == (s + t') + [x];
      UniqueAbsorbs(s, t');
      UniqueSnoc(s + t', x);
    }
  }

  function FirstIndex<T(==)>(s: seq<T>, x: T): (i: nat)
    requires x in s
    ensures i < |s| && s[i] == x && x !in s[..i]
  {
    if s[0] == x then 0 else 1 + FirstIndex(s[1..], x)
  }

  lemma {:induction false} FirstIndexIs<T>(s: seq<T>, x: T, i: nat)
    requires i < |s| && s[i] == x && x !in s[..i]
    ensures FirstIndex(s, x) == i
  {
    var k := FirstIndex(s, x);
    assert !(k < i);
    assert !(i < k);
  }

  /** The survivors stand in the order of their first occurrences. */
  lemma {:induction false} UniqueKeepsOrder<T(!new)>(s: seq<T>, i: nat, j: nat)
    requires i < j < |Unique(s)|
    ensures FirstIndex(s, Unique(s)[i]) < FirstIndex(s, Unique(s)[j])
  {
    var init, x := s[..|s| - 1], s[|s| - 1];
    var r := Unique(init);
    forall y | y in init ensures FirstIndex(s, y) == FirstIndex(init, y) {
      var k := FirstIndex(init, y);
      assert s[..k] == init[..k];
      FirstIndexIs(s, y, k);
    }
    if x in r || j < |r| {
      UniqueKeepsOrder(init, i, j);
    } else {
      assert Unique(s)[j] == x && x !in init && Unique(s)[i] == r[i];
      FirstIndexIs(s, x, |init|);
    }
  }

  /** What a loop that skips the elements failing `p` appends. */
  function Keep<T(!new)>(s: seq<T>, p: T -> bool): (r: seq<T>)
    ensures forall x :: x in r <==> x in s && p(x)
    ensures |r| <= |s|
  {
    if s == [] then [] else
      var r := Keep(s[..|s| - 1], p);
      if p(s[|s| - 1]) then r + [s[|s| - 1]] else r
  }

  lemma {:induction false} KeepSnoc<T(!new)>(s: seq<T>, x: T, p: T -> bool)
    ensures Keep(s + [x], p) == if p(x) then Keep(s, p) + [x] else Keep(s, p)
  {
    assert (s + [x])[..|s|] == s;
  }

  lemma UniqueKeepNext<T(!new)>(s: seq<T>, i: nat, p: T -> bool)
    requires i < |s|
    ensures var kept := Unique(Keep(s[..i], p));
            Unique(Keep(s[..i + 1], p)) == if p(s[i]) && s[i] !in kept then kept + [s[i]] else kept
  {
    assert s[..i + 1] == s[..i] + [s[i]];
    KeepSnoc(s[..i], s[i], p);
    UniqueSnoc(Keep(s[..i], p), s[i]);
  }

  lemma {:induction false} KeepAppend<T(!new)>(s: seq<T>, t: seq<T>, p: T -> bool)
    ensures Keep(s + t, p) == Keep(s, p) + Keep(t, p)
  {
    if t == [] {
      assert s + t == s;
    } else {
      var t', x := t[..|t| - 1], t[|t| - 1];
      assert t == t' + [x] && s + t == (s + t') + [x];
      KeepAppend(s, t', p);
      KeepSnoc(s + t', x, p);
    }
  }

  lemma {:induction false} KeepAll<T(!new)>(s: seq<T>, p: T -> bool)
    requires forall x :: x in s ==> p(x)
    ensures Keep(s, p) == s
  {
    if s != [] {
      KeepAll(s[..|s| - 1], p);
      assert s == s[..|s| - 1] + [s[|s| - 1]];
    }
  }

  lemma {:induction false} KeepNone<T(!new)>(s: seq<T>, p: T -> bool)
    requires forall x :: x in s ==> !p(x)
    ensures Keep(s, p) == []
  {
    if s != [] {
      KeepNone(s[..|s| - 1], p);
    }
  }

  lemma {:induction false} KeepTwice<T(!new)>(s: seq<T>, p: T -> bool, q: T -> bool, both: T -> bool)
    requires forall x :: x in s ==> (both(x) <==> p(x) && q(x))
    ensures Keep(Keep(s, p), q) == Keep(s, both)
  {
    if s != [] {
      var init, x := s[..|s| - 1], s[|s| - 1];
      KeepTwice(init, p, q, both);
      KeepSnoc(Keep(init, p), x, q);
    }
  }

  lemma {:induction false} KeepSame<T(!new)>(s: seq<T>, p: T -> bool, q: T -> bool)
    requires forall x :: x in s ==> (p(x) <==> q(x))
    ensures Keep(s, p) == Keep(s, q)
  {
    if s != [] {
      KeepSame(s[..|s| - 1], p, q);
    }
  }

  lemma {:induction false} KeepDistinct<T(!new)>(s: seq<T>, p: T -> bool)
    requires NoDuplicates(s)
    ensures NoDuplicates(Keep(s, p))
  {
    if s != [] {
      KeepDistinct(s[..|s| - 1], p);
      var init, x := s[..|s| - 1], s[|s| - 1];
      forall y | y in Keep(init, p) ensures y != x {
        assert y in init;
        var i :| 0 <= i < |init| && init[i] == y;
        assert s[i] == y;
      }
    }
  }

  lemma {:induction false} KeepOrder<T(!new)>(s: seq<T>, p: T -> bool, i: nat, j: nat) returns (k: nat, l: nat)
    requires i < j < |Keep(s, p)|
    ensures k < l < |s| && s[k] == Keep(s, p)[i] && s[l] == Keep(s, p)[j]
  {
    var init := s[..|s| - 1];
    if j < |Keep(init, p)| {
      k, l := KeepOrder(init, p, i, j);
    } else {
      assert Keep(init, p)[i] in init;
      k :| 0 <= k < |init| && init[k] == Keep(init, p)[i];
      l := |s| - 1;
    }
  }

  function Map<T, U>(f: T -> U, s: seq<T>): (r: seq<U>)
    ensures |r| == |s|
    ensures forall i :: 0 <= i < |s| ==> r[i] == f(s[i])
  {
    seq(|s|, i requires 0 <= i < |s| => f(s[i]))
  }

  lemma MapPrefix<T, U>(f: T -> U, s: seq<T>, n: nat)
    requires n <= |s|
    ensures Map(f, s)[..n] == Map(f, s[..n])
  {
  }

  lemma MapSnoc<T, U>(f: T -> U, s: seq<T>, x: T)
    ensures Map(f, s + [x]) == Map(f, s) + [f(x)]
  {
  }

  /** The lists one after the other. */
  function Flatten<T>(lists: seq<seq<T>>): seq<T> {
    if lists == [] then [] else lists[0] + Flatten(lists[1..])
  }

  lemma {:induction false} FlattenSnoc<T>(lists: seq<seq<T>>, last: seq<T>)
    ensures Flatten(lists + [last]) == Flatten(lists) + last
  {
    var all := lists + [last];
    if lists == [] {
      assert all[1..] == [];
    } else {
      assert all[1..] == lists[1..] + [last];
      FlattenSnoc(lists[1..], last);
    }
  }

  /** What a loop that skips the elements without a result appends. */
  function Collect<T, U>(f: T -> Option<U>, s: seq<T>): seq<U> {
    if s == [] then [] else
      var r := Collect(f, s[..|s| - 1]);
      match f(s[|s| - 1])
      case None => r
      case Some(u) => r + [u]
  }

  lemma {:induction false} CollectAgrees<S, T, U>(f: S -> Option<U>, g: T -> Option<U>, s: seq<S>, t: seq<T>)
    requires |s| == |t| && forall i :: 0 <= i < |s| ==> f(s[i]) == g(t[i])
    ensures Collect(f, s) == Collect(g, t)
  {
    if s != [] { CollectAgrees(f, g, s[..|s| - 1], t[..|t| - 1]); }
  }

  lemma {:induction false} CollectHolds<T, U(!new)>(f: T -> Option<U>, s: seq<T>, p: U -> bool)
    requires forall i :: 0 <= i < |s| ==> f(s[i]).Some? ==> p(f(s[i]).value)
    ensures forall u :: u in Collect(f, s) ==> p(u)
  {
    if s != [] { CollectHolds(f, s[..|s| - 1], p); }
  }

  /** Removing one element of a permutation leaves a permutation of the rest. */
  lemma RemoveOne<T>(s: seq<T>, k: nat)
    requires k < |s|
    ensures multiset(s[..k] + s[k + 1..]) == multiset(s) - multiset{s[k]}
    ensures multiset(s) == multiset(s[..k] + s[k + 1..]) + multiset{s[k]}
  {
    assert s == s[..k] + [s[k]] + s[k + 1..];
  }

  function Without<T>(s: seq<T>, k: nat): seq<T>
    requires k < |s|
  {
    s[..k] + s[k + 1..]
  }

  lemma {:induction false} MapPermutes<T, U>(f: T -> U, s: seq<T>, t: seq<T>)
    requires multiset(s) == multiset(t)
    ensures multiset(Map(f, s)) == multiset(Map(f, t))
  {
    if s == [] {
      assert |multiset(t)| == 0;
    } else {
      assert s[0] in multiset(t);
      var k :| 0 <= k < |t| && t[k] == s[0];
      RemoveOne(s, 0);
      RemoveOne(t, k);
      MapPermutes(f, Without(s, 0), Without(t, k));
      MapWithout(f, s, 0);
      MapWithout(f, t, k);
    }
  }

  lemma MapWithout<T, U>(f: T -> U, s: seq<T>, k: nat)
    requires k < |s|
    ensures multiset(Map(f, s)) == multiset(Map(f, Without(s, k))) + multiset{f(s[k])}
  {
    assert Without(Map(f, s), k) == Map(f, Without(s, k));
    RemoveOne(Map(f, s), k);
  }

  // ----- sorting -----

  ghost predicate StrictTotalOrder<K(!new)>(less: (K, K) -> bool) {
    && (forall a, b :: less(a, b) ==> !less(b, a))
    && (forall a, b :: less(a, b) || less(b, a) || a == b)
    && (forall a, b, c :: less(a, b) && less(b, c) ==> less(a, c))
  }

  ghost predicate SortedBy<T, K>(s: seq<T>, key: T -> K, less: (K, K) -> bool) {
    forall i, j :: 0 <= i < j < |s| ==> !less(key(s[j]), key(s[i]))
  }

  ghost predicate Ordered<K>(s: seq<K>, less: (K, K) -> bool) {
    forall i, j :: 0 <= i < j < |s| ==> !less(s[j], s[i])
  }

  function InsertBy<T, K>(x: T, s: seq<T>, key: T -> K, less: (K, K) -> bool): seq<T> {
    if s == [] || !less(key(s[0]), key(x)) then [x] + s else [s[0]] + InsertBy(x, s[1..], key, less)
  }

  /** A sorted arrangement that keeps ties in order. */
  function Arrange<T, K>(s: seq<T>, key: T -> K, less: (K, K) -> bool): seq<T> {
    if s == [] then [] else InsertBy(s[0], Arrange(s[1..], key, less), key, less)
  }

  lemma SortedCons<T, K(!new)>(x: T, s: seq<T>, key: T -> K, less: (K, K) -> bool)
    requires StrictTotalOrder(less) && SortedBy(s, key, less) && (s == [] || !less(key(s[0]), key(x)))
    ensures SortedBy([x] + s, key, less)
  {
    var r := [x] + s;
    forall i, j | 0 <= i < j < |r| ensures !less(key(r[j]), key(r[i])) {
      assert r[j] == s[j - 1];
      if i > 0 { assert r[i] == s[i - 1]; } else if j > 1 { assert !less(key(s[j - 1]), key(s[0])); }
    }
  }

  lemma {:induction false} InsertByPermutes<T, K>(x: T, s: seq<T>, key: T -> K, less: (K, K) -> bool)
    ensures multiset(InsertBy(x, s, key, less)) == multiset(s) + multiset{x}
  {
    if s != [] && less(key(s[0]), key(x)) {
      InsertByPermutes(x, s[1..], key, less);
      assert s == [s[0]] + s[1..];
    }
  }

  lemma {:induction false} InsertBySorts<T, K(!new)>(x: T, s: seq<T>, key: T -> K, less: (K, K) -> bool)
    requires StrictTotalOrder(less) && SortedBy(s, key, less)
    ensures var r := InsertBy(x, s, key, less);
            && SortedBy(r, key, less)
            && r != [] && r[0] == if s == [] || !less(key(s[0]), key(x)) then x else s[0]
  {
    if s == [] || !less(key(s[0]), key(x)) {
      SortedCons(x, s, key, less);
    } else {
      InsertBySorts(x, s[1..], key, less);
      SortedCons(s[0], InsertBy(x, s[1..], key, less), key, less);
    }
  }

  lemma {:induction false} ArrangeSorts<T, K(!new)>(s: seq<T>, key: T -> K, less: (K, K) -> bool)
    requires StrictTotalOrder(less)
    ensures SortedBy(Arrange(s, key, less), key, less) && multiset(Arrange(s, key, less)) == multiset(s)
  {
    if s != [] {
      ArrangeSorts(s[1..], key, less);
      InsertBySorts(s[0], Arrange(s[1..], key, less), key, less);
      InsertByPermutes(s[0], Arrange(s[1..], key, less), key, less);
      assert s == [s[0]] + s[1..];
    }
  }

  /** Two sorted arrangements of the same keys are the same list of keys. */
  lemma {:induction false} SortedKeysAgree<K(!new)>(s: seq<K>, t: seq<K>, less: (K, K) -> bool)
    requires StrictTotalOrder(less)
    requires multiset(s) == multiset(t)
    requires Ordered(s, less) && Ordered(t, less)
    ensures s == t
  {
    if s == [] {
      assert |multiset(t)| == 0;
    } else {
      SortedHeadsAgree(s, t, less);
      TailsPermute(s, t);
      SortedTail(s, less);
      SortedTail(t, less);
      SortedKeysAgree(s[1..], t[1..], less);
      assert s == [s[0]] + s[1..];
    }
  }

  lemma TailsPermute<T>(s: seq<T>, t: seq<T>)
    requires s != [] && t != [] && s[0] == t[0]
    requires multiset(s) == multiset(t)
    ensures multiset(s[1..]) == multiset(t[1..])
  {
    HeadMultiset(s);
    HeadMultiset(t);
  }

  lemma HeadMultiset<T>(s: seq<T>)
    requires s != []
    ensures multiset(s[1..]) == multiset(s) - multiset{s[0]}
  {
    assert s == [s[0]] + s[1..];
  }

  lemma SortedTail<K>(s: seq<K>, less: (K, K) -> bool)
    requires Ordered(s, less) && s != []
    ensures Ordered(s[1..], less)
  {
  }

  lemma SortedHeadsAgree<K(!new)>(s: seq<K>, t: seq<K>, less: (K, K) -> bool)
    requires StrictTotalOrder(less) && s != []
    requires multiset(s) == multiset(t)
    requires Ordered(s, less) && Ordered(t, less)
    ensures t != [] && s[0] == t[0]
  {
    assert s[0] in multiset(t);
    assert t[0] in multiset(s);
  }

  /** So ties are the only freedom an unstable sort has. */
  lemma SortedUpToTies<T, K(!new)>(s: seq<T>, t: seq<T>, key: T -> K, less: (K, K) -> bool)
    requires StrictTotalOrder(less)
    requires multiset(s) == multiset(t)
    requires SortedBy(s, key, less) && SortedBy(t, key, less)
    ensures Map(key, s) == Map(key, t)
  {
    MapPermutes(key, s, t);
    SortedKeysAgree(Map(key, s), Map(key, t), less);
  }

  ghost predicate DistinctKeys<T, K>(s: seq<T>, key: T -> K) {
    forall x, y :: x in s && y in s && key(x) == key(y) ==> x == y
  }

  lemma SortedDistinctAgree<T, K(!new)>(s: seq<T>, t: seq<T>, key: T -> K, less: (K, K) -> bool)
    requires StrictTotalOrder(less)
    requires multiset(s) == multiset(t)
    requires SortedBy(s, key, less) && SortedBy(t, key, less)
    requires DistinctKeys(s, key)
    ensures s == t
  {
    SortedUpToTies(s, t, key, less);
    assert |Map(key, s)| == |s| && |Map(key, t)| == |t|;
    forall i | 0 <= i < |s| ensures s[i] == t[i] {
      assert t[i] in multiset(s);
      assert key(s[i]) == Map(key, s)[i] == Map(key, t)[i] == key(t[i]);
    }
  }
}
