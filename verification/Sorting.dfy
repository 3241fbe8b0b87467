/** In-place sorting. Callers may rely on the contract only: ties may end in any order. */
module Sorting {
  import opened Sequences
  import opened Strings
  import opened Paths

  predicate NatLess(a: nat, b: nat) { a < b }

  /** The number of separators of the cleaned path. */
  function Depth(path: string): nat { Count(Clean(path), SEPARATOR) }

  /** The comparison of container paths: shallower first, then alphabetical. */
  predicate PathLess(a: string, b: string) {
    if Depth(a) == Depth(b) then Less(a, b) else Depth(a) < Depth(b)
  }

  /** In other words: fewer separators once cleaned, or as many and the text itself is less. */
  lemma PathLessIff(a: string, b: string)
    ensures var m, n := multiset(Clean(a))['/'], multiset(Clean(b))['/'];
            PathLess(a, b) <==> m < n || (m == n && Less(a, b))
  {
    hide Clean, Count;
    CountIs(Clean(a), '/');
    CountIs(Clean(b), '/');
  }

  lemma NatLessIsTotal()
    ensures StrictTotalOrder(NatLess)
  {
  }

  lemma LessIsTotal()
    ensures StrictTotalOrder(Less)
  {
    forall a, b | Less(a, b) ensures !Less(b, a) { LessAsymmetric(a, b); }
    forall a, b ensures Less(a, b) || Less(b, a) || a == b { LessTotal(a, b); }
    forall a, b, c | Less(a, b) && Less(b, c) ensures Less(a, c) { LessTransitive(a, b, c); }
  }

  lemma PathLessIsTotal()
    ensures StrictTotalOrder(PathLess)
  {
    LessIsTotal();
    forall a, b | PathLess(a, b) ensures !PathLess(b, a) {
      assert Less(a, b) ==> !Less(b, a);
    }
    forall a, b ensures PathLess(a, b) || PathLess(b, a) || a == b {
      assert Less(a, b) || Less(b, a) || a == b;
    }
    forall a, b, c | PathLess(a, b) && PathLess(b, c) ensures PathLess(a, c) {
      assert Less(a, b) && Less(b, c) ==> Less(a, c);
    }
  }

  ghost predicate CleanAbsolute(path: string) { IsAbs(path) && Clean(path) == path }

  /** `a` is a proper ancestor directory of `b`. */
  ghost predicate Ancestor(a: string, b: string) {
    if a == "/" then b != "/" && HasPrefix(b, "/") else HasPrefix(b, a + "/")
  }

  /** An ancestor is compared below everything beneath it, the root included. */
  lemma AncestorFirst(a: string, b: string)
    requires CleanAbsolute(a) && CleanAbsolute(b) && Ancestor(a, b)
    ensures PathLess(a, b)
  {
    if a == "/" {
      assert b == "/" + b[1..];
      CountAppend("/", b[1..], SEPARATOR);
      assert Count("/", SEPARATOR) == 1 by { assert "/"[1..] == ""; }
      PrefixIsLess(a, b);
    } else {
      var rest := b[|a| + 1..];
      assert b == a + ("/" + rest);
      CountAppend(a, "/" + rest, SEPARATOR);
      assert ("/" + rest)[1..] == rest;
    }
  }

  /** So a sorted list of clean paths mounts a directory before what lies beneath it. */
  lemma SortedAncestorsFirst<T>(s: seq<T>, path: T -> string, i: nat, j: nat)
    requires SortedBy(s, path, PathLess)
    requires i < |s| && j < |s|
    requires CleanAbsolute(path(s[i])) && CleanAbsolute(path(s[j])) && Ancestor(path(s[i]), path(s[j]))
    ensures i < j
  {
    AncestorFirst(path(s[i]), path(s[j]));
    PathLessIsTotal();
    assert !PathLess(path(s[i]), path(s[i]));
  }

  /** Stands for sort.Slice and slices.Sort. */
  method SortSlice<T, K(!new)>(a: array<T>, key: T -> K, less: (K, K) -> bool)
    requires StrictTotalOrder(less)
    modifies a
    ensures multiset(a[..]) == multiset(old(a[..]))
    ensures SortedBy(a[..], key, less)
  {
    for i := 0 to a.Length
      invariant multiset(a[..]) == multiset(old(a[..]))
      invariant SortedBy(a[..i], key, less)
    {
      Insert(a, key, less, i);
    }
    assert a[..] == a[..a.Length];
  }

  /** Sorts every array where it is; an array may be listed more than once. */
  method SortSlices<T, K(!new)>(slices: seq<array<T>>, key: T -> K, less: (K, K) -> bool)
    requires StrictTotalOrder(less)
    modifies slices
    ensures forall k :: 0 <= k < |slices| ==> multiset(slices[k][..]) == old(multiset(slices[k][..]))
    ensures forall k :: 0 <= k < |slices| ==> SortedBy(slices[k][..], key, less)
  {
    for i := 0 to |slices|
      invariant forall k :: 0 <= k < |slices| ==> multiset(slices[k][..]) == old(multiset(slices[k][..]))
      invariant forall k :: 0 <= k < i ==> SortedBy(slices[k][..], key, less)
    {
      SortSlice(slices[i], key, less);
    }
  }

  /** Moves element `i` down to its place among the sorted elements before it. */
  method Insert<T, K(!new)>(a: array<T>, key: T -> K, less: (K, K) -> bool, i: nat)
    requires StrictTotalOrder(less)
    requires i < a.Length && SortedBy(a[..i], key, less)
    modifies a
    ensures multiset(a[..]) == multiset(old(a[..]))
    ensures SortedBy(a[..i + 1], key, less)
  {
    var j := i;
    assert forall p, q :: 0 <= p < q < i ==> !less(key(a[..i][q]), key(a[..i][p]));
    while j > 0 && less(key(a[j]), key(a[j - 1]))
      invariant j <= i
      invariant multiset(a[..]) == multiset(old(a[..]))
      invariant forall p, q :: 0 <= p < q <= i && q != j ==> !less(key(a[q]), key(a[p]))
    {
      SwapAt(a, j);
      j := j - 1;
    }
    assert forall p :: 0 <= p < j ==> !less(key(a[j]), key(a[p]));
  }

  method SwapAt<T>(a: array<T>, j: nat)
    requires 0 < j < a.Length
    modifies a
    ensures a[j] == old(a[j - 1]) && a[j - 1] == old(a[j])
    ensures forall k :: 0 <= k < a.Length && k != j && k != j - 1 ==> a[k] == old(a[k])
    ensures multiset(a[..]) == multiset(old(a[..]))
  {
    a[j - 1], a[j] := a[j], a[j - 1];
  }
}
