/** Tables that a list of entries overwrites key by key, and what can be changed in the list unnoticed. */
module Overwrites {
  import opened Wrappers
  import opened Sequences

  type Table<T> = map<string, T>

  /** Each entry overwrites what stands under its key. */
  function Apply<T>(key: T -> string, table: Table<T>, entries: seq<T>): Table<T> {
    if entries == [] then table
    else
      var last := entries[|entries| - 1];
      Apply(key, table, entries[..|entries| - 1])[key(last) := last]
  }

  function ApplyAll<T>(key: T -> string, table: Table<T>, lists: seq<seq<T>>): Table<T> {
    if lists == [] then table
    else Apply(key, ApplyAll(key, table, lists[..|lists| - 1]), lists[|lists| - 1])
  }

  function Lookup<T>(table: Table<T>, k: string): Option<T> {
    if k in table then Some(table[k]) else None
  }

  /** The last entry with key `k`. */
  function LastOf<T>(key: T -> string, entries: seq<T>, k: string): (r: Option<T>)
    ensures r.Some? ==> r.value in entries && key(r.value) == k
    ensures r.None? ==> forall e :: e in entries ==> key(e) != k
  {
    if entries == [] then None
    else if key(entries[|entries| - 1]) == k then Some(entries[|entries| - 1])
    else LastOf(key, entries[..|entries| - 1], k)
  }

  /** The entry with key `k` that the lists leave, one after the other. */
  function LeftBy<T>(key: T -> string, lists: seq<seq<T>>, k: string): Option<T> {
    if lists == [] then None
    else
      var last := LastOf(key, lists[|lists| - 1], k);
      if last.Some? then last else LeftBy(key, lists[..|lists| - 1], k)
  }

  function Else<T>(a: Option<T>, b: Option<T>): Option<T> { if a.Some? then a else b }

  lemma {:induction false} ApplyLookup<T>(key: T -> string, table: Table<T>, entries: seq<T>, k: string)
    ensures Lookup(Apply(key, table, entries), k) == Else(LastOf(key, entries, k), Lookup(table, k))
  {
    if entries != [] { ApplyLookup(key, table, entries[..|entries| - 1], k); }
  }

  lemma {:induction false} ApplyAllLookup<T>(key: T -> string, table: Table<T>, lists: seq<seq<T>>, k: string)
    ensures Lookup(ApplyAll(key, table, lists), k) == Else(LeftBy(key, lists, k), Lookup(table, k))
  {
    if lists != [] {
      var init := lists[..|lists| - 1];
      ApplyAllLookup(key, table, init, k);
      ApplyLookup(key, ApplyAll(key, table, init), lists[|lists| - 1], k);
    }
  }

  /** What stands under `k` after the lists and then the common list. */
  lemma {:induction false} LookupAfter<T>(key: T -> string, table: Table<T>, lists: seq<seq<T>>, common: seq<T>, k: string)
    ensures Lookup(Apply(key, ApplyAll(key, table, lists), common), k) ==
      Else(LastOf(key, common, k), Else(LeftBy(key, lists, k), Lookup(table, k)))
  {
    ApplyLookup(key, ApplyAll(key, table, lists), common, k);
    ApplyAllLookup(key, table, lists, k);
  }

  lemma {:induction false} ApplyAppend<T>(key: T -> string, table: Table<T>, s: seq<T>, t: seq<T>)
    ensures Apply(key, table, s + t) == Apply(key, Apply(key, table, s), t)
  {
    if t == [] {
      assert s + t == s;
    } else {
      var init := t[..|t| - 1];
      ApplyAppend(key, table, s, init);
      assert (s + t)[..|s + t| - 1] == s + init;
    }
  }

  /** Lists applied one after the other are one long list applied once. */
  lemma {:induction false} ApplyAllIsFlat<T>(key: T -> string, table: Table<T>, lists: seq<seq<T>>)
    ensures ApplyAll(key, table, lists) == Apply(key, table, Flatten(lists))
  {
    if lists != [] {
      var init, last := lists[..|lists| - 1], lists[|lists| - 1];
      assert lists == init + [last];
      ApplyAllIsFlat(key, table, init);
      FlattenSnoc(init, last);
      ApplyAppend(key, table, Flatten(init), last);
    }
  }

  lemma Extensional<T>(a: Table<T>, b: Table<T>)
    requires forall k: string :: Lookup(a, k) == Lookup(b, k)
    ensures a == b
  {
    forall k ensures k in a <==> k in b { assert Lookup(a, k) == Lookup(b, k); }
    forall k | k in a ensures a[k] == b[k] { assert Lookup(a, k) == Lookup(b, k); }
  }

  lemma {:induction false} LeftByAgrees<T>(key: T -> string, ss: seq<seq<T>>, ts: seq<seq<T>>, k: string)
    requires |ss| == |ts| && forall i :: 0 <= i < |ss| ==> LastOf(key, ss[i], k) == LastOf(key, ts[i], k)
    ensures LeftBy(key, ss, k) == LeftBy(key, ts, k)
  {
    if ss != [] { LeftByAgrees(key, ss[..|ss| - 1], ts[..|ts| - 1], k); }
  }

  lemma LastOfAppend<T>(key: T -> string, s: seq<T>, t: seq<T>, k: string)
    ensures LastOf(key, s + t, k) == Else(LastOf(key, t, k), LastOf(key, s, k))
    decreases |t|
  {
    if t == [] {
      assert s + t == s;
    } else {
      assert (s + t)[..|s + t| - 1] == s + t[..|t| - 1];
      LastOfAppend(key, s, t[..|t| - 1], k);
    }
  }

  /** Where a key has one entry at most, any arrangement ends with it. */
  lemma {:induction false} OnlyOne<T>(key: T -> string, entries: seq<T>, e: T)
    requires e in entries && forall x :: x in entries && key(x) == key(e) ==> x == e
    ensures LastOf(key, entries, key(e)) == Some(e)
  {
  }

  /** For every key both lists end with the same entry. */
  ghost predicate SameLast<T(!new)>(key: T -> string, s: seq<T>, t: seq<T>) {
    forall k: string :: LastOf(key, t, k) == LastOf(key, s, k)
  }

  /** Two lists make the same of every table exactly when they end alike for every key. */
  lemma ApplyAgreeIff<T(!new)>(key: T -> string, s: seq<T>, t: seq<T>)
    ensures (forall table: Table<T> :: Apply(key, table, t) == Apply(key, table, s)) <==> SameLast(key, s, t)
  {
    if SameLast(key, s, t) {
      forall table: Table<T> ensures Apply(key, table, t) == Apply(key, table, s) {
        forall k: string ensures Lookup(Apply(key, table, t), k) == Lookup(Apply(key, table, s), k) {
          ApplyLookup(key, table, t, k);
          ApplyLookup(key, table, s, k);
        }
        Extensional(Apply(key, table, t), Apply(key, table, s));
      }
    }
    if k: string :| LastOf(key, t, k) != LastOf(key, s, k) {
      var empty: Table<T> := map[];
      ApplyLookup(key, empty, t, k);
      ApplyLookup(key, empty, s, k);
      assert Apply(key, empty, t) != Apply(key, empty, s);
    }
  }

  /** The last list that has the key, if any. */
  lemma {:induction false} LeftByIndex<T>(key: T -> string, lists: seq<seq<T>>, k: string) returns (i: nat)
    ensures LeftBy(key, lists, k).None? ==> forall j :: 0 <= j < |lists| ==> LastOf(key, lists[j], k).None?
    ensures LeftBy(key, lists, k).Some? ==> i < |lists| && LastOf(key, lists[i], k) == LeftBy(key, lists, k)
    ensures LeftBy(key, lists, k).Some? ==> forall j :: i < j < |lists| ==> LastOf(key, lists[j], k).None?
  {
    i := 0;
    if lists != [] {
      var n := |lists| - 1;
      if LastOf(key, lists[n], k).Some? { i := n; } else { i := LeftByIndex(key, lists[..n], k); }
    }
  }

  // ----- selections -----

  /** The lists of the selected names, then the common list. */
  function Applied<T>(key: T -> string, lists: string -> seq<T>, common: seq<T>, names: seq<string>, table: Table<T>): Table<T> {
    Apply(key, ApplyAll(key, table, Map(lists, names)), common)
  }

  ghost predicate AppliedAgree<T(!new)>(key: T -> string, lists: string -> seq<T>, common: seq<T>,
      lists': string -> seq<T>, common': seq<T>)
  {
    forall names: seq<string>, table: Table<T> ::
      Applied(key, lists', common', names, table) == Applied(key, lists, common, names, table)
  }

  /** Where the common list is silent, every selectable list ends alike. */
  ghost predicate ListsEndAlike<T(!new)>(key: T -> string, lists: string -> seq<T>, common: seq<T>, lists': string -> seq<T>) {
    forall name: string, k: string :: LastOf(key, common, k).None? ==>
      LastOf(key, lists'(name), k) == LastOf(key, lists(name), k)
  }

  /** All selections leave the same tables exactly when the lists end alike. */
  lemma AppliedAgreeIff<T(!new)>(key: T -> string, lists: string -> seq<T>, common: seq<T>,
      lists': string -> seq<T>, common': seq<T>)
    ensures AppliedAgree(key, lists, common, lists', common') <==>
      SameLast(key, common, common') && ListsEndAlike(key, lists, common, lists')
  {
    if SameLast(key, common, common') && ListsEndAlike(key, lists, common, lists') {
      forall names: seq<string>, table: Table<T>
        ensures Applied(key, lists', common', names, table) == Applied(key, lists, common, names, table)
      {
        AlikeApplied(key, lists, common, lists', common', names, table);
      }
    }
    if AppliedAgree(key, lists, common, lists', common') {
      forall k: string ensures LastOf(key, common', k) == LastOf(key, common, k) {
        AppliedEmpty(key, lists, common, lists', common', k);
      }
      forall name: string, k: string | LastOf(key, common, k).None?
        ensures LastOf(key, lists'(name), k) == LastOf(key, lists(name), k)
      {
        AppliedEmpty(key, lists, common, lists', common', k);
        AppliedOne(key, lists, common, lists', common', name, k);
      }
    }
  }

  lemma AlikeApplied<T(!new)>(key: T -> string, lists: string -> seq<T>, common: seq<T>,
      lists': string -> seq<T>, common': seq<T>, names: seq<string>, table: Table<T>)
    requires SameLast(key, common, common') && ListsEndAlike(key, lists, common, lists')
    ensures Applied(key, lists', common', names, table) == Applied(key, lists, common, names, table)
  {
    var a, b := Applied(key, lists', common', names, table), Applied(key, lists, common, names, table);
    forall k: string ensures Lookup(a, k) == Lookup(b, k) {
      LookupAfter(key, table, Map(lists', names), common', k);
      LookupAfter(key, table, Map(lists, names), common, k);
      if LastOf(key, common, k).None? { LeftByAgrees(key, Map(lists', names), Map(lists, names), k); }
    }
    Extensional(a, b);
  }

  /** Selecting nothing shows what the common list leaves. */
  lemma AppliedEmpty<T(!new)>(key: T -> string, lists: string -> seq<T>, common: seq<T>,
      lists': string -> seq<T>, common': seq<T>, k: string)
    requires AppliedAgree(key, lists, common, lists', common')
    ensures LastOf(key, common', k) == LastOf(key, common, k)
  {
    var table: Table<T> := map[];
    assert Applied(key, lists', common', [], table) == Applied(key, lists, common, [], table);
    LookupAfter(key, table, Map(lists', []), common', k);
    LookupAfter(key, table, Map(lists, []), common, k);
  }

  /** Selecting one name shows what its list leaves. */
  lemma AppliedOne<T(!new)>(key: T -> string, lists: string -> seq<T>, common: seq<T>,
      lists': string -> seq<T>, common': seq<T>, name: string, k: string)
    requires AppliedAgree(key, lists, common, lists', common')
    requires LastOf(key, common, k) == LastOf(key, common', k) == None
    ensures LastOf(key, lists'(name), k) == LastOf(key, lists(name), k)
  {
    var table: Table<T> := map[];
    assert Applied(key, lists', common', [name], table) == Applied(key, lists, common, [name], table);
    LookupAfter(key, table, Map(lists', [name]), common', k);
    LookupAfter(key, table, Map(lists, [name]), common, k);
    LeftByOne(key, lists'(name), k);
    LeftByOne(key, lists(name), k);
    assert Map(lists', [name]) == [lists'(name)] && Map(lists, [name]) == [lists(name)];
  }

  lemma LeftByOne<T>(key: T -> string, s: seq<T>, k: string)
    ensures LeftBy(key, [s], k) == LastOf(key, s, k)
  {
    assert [s][..0] == [];
  }

  // ----- first occurrences, some of them dropped -----

  lemma {:induction false} LastIndex<T>(key: T -> string, s: seq<T>, k: string) returns (i: nat)
    requires LastOf(key, s, k).Some?
    ensures i < |s| && s[i] == LastOf(key, s, k).value && forall j :: i < j < |s| ==> key(s[j]) != k
  {
    if key(s[|s| - 1]) == k { i := |s| - 1; } else { i := LastIndex(key, s[..|s| - 1], k); }
  }

  /** What is left last for a key is, of the survivors, the one introduced last. */
  lemma {:induction false} LastSurvivor<T(!new)>(key: T -> string, s: seq<T>, p: T -> bool, e: T)
    requires e in s && p(e)
    ensures var y := LastOf(key, Keep(Unique(s), p), key(e));
            y.Some? && y.value in s && p(y.value) && FirstIndex(s, e) <= FirstIndex(s, y.value)
  {
    var t := Keep(Unique(s), p);
    assert e in t;
    var i := LastIndex(key, t, key(e));
    var j :| 0 <= j < |t| && t[j] == e;
    if j < i {
      var a, b := KeepOrder(Unique(s), p, j, i);
      UniqueKeepsOrder(s, a, b);
    }
  }

  lemma SameFirstIndex<T>(s: seq<T>, a: T, b: T)
    requires a in s && b in s && FirstIndex(s, a) == FirstIndex(s, b)
    ensures a == b
  {
  }

  /** Of the entries under one key the last survives, and none that survives was introduced after it. */
  ghost predicate LastStays<T(!new)>(key: T -> string, s: seq<T>, p: T -> bool, k: string) {
    forall e :: e in s && key(e) == k ==>
      var l := LastOf(key, s, k).value;
      p(l) && (p(e) ==> FirstIndex(s, e) <= FirstIndex(s, l))
  }

  /** Deduplicating and dropping leaves the last entry of a key alone exactly when it stays. */
  lemma LastStaysIff<T(!new)>(key: T -> string, s: seq<T>, p: T -> bool, k: string)
    ensures LastOf(key, Keep(Unique(s), p), k) == LastOf(key, s, k) <==> LastStays(key, s, p, k)
  {
    var t := LastOf(key, Keep(Unique(s), p), k);
    if LastOf(key, s, k).Some? {
      var l := LastOf(key, s, k).value;
      if t == Some(l) {
        assert p(l);
        forall e | e in s && key(e) == k && p(e) ensures FirstIndex(s, e) <= FirstIndex(s, l) { LastSurvivor(key, s, p, e); }
      }
      if LastStays(key, s, p, k) {
        assert p(l);
        LastSurvivor(key, s, p, l);
        SameFirstIndex(s, l, t.value);
      }
    }
  }

  /** For every key, the entry left last is the one introduced last. */
  ghost predicate LastIsNewest<T(!new)>(key: T -> string, s: seq<T>) {
    forall e :: e in s ==> FirstIndex(s, e) <= FirstIndex(s, LastOf(key, s, key(e)).value)
  }

  function Any<T>(): T -> bool { x => true }

  /** Deduplication alone is unnoticed exactly when the entries left last are the newest. */
  lemma NewestIff<T(!new)>(key: T -> string, s: seq<T>)
    ensures SameLast(key, s, Unique(s)) <==> LastIsNewest(key, s)
  {
    hide Keep;
    KeepAll(Unique(s), Any());
    if LastIsNewest(key, s) {
      forall k: string ensures LastOf(key, Unique(s), k) == LastOf(key, s, k) {
        assert LastStays(key, s, Any(), k);
        LastStaysIff(key, s, Any(), k);
      }
    }
    if !LastIsNewest(key, s) {
      var e :| e in s && FirstIndex(s, e) > FirstIndex(s, LastOf(key, s, key(e)).value);
      LastStaysIff(key, s, Any(), key(e));
      assert LastOf(key, Unique(s), key(e)) != LastOf(key, s, key(e));
    }
  }
}
