/** Which device node and which mount a container ends up with at each path. */
module Places {
  import opened Wrappers
  import opened Sequences
  import opened Strings
  import opened Sorting
  import opened CdiSpec
  import opened Transforms
  import opened SimplifierTheory
  import opened Overwrites
  import opened Application

  // ----- which entry a sort can leave last -----

  /** Inserting before ties leaves the last entry of a key where it is. */
  lemma {:induction false} InsertKeepsLast<T(!new)>(y: T, t: seq<T>, key: T -> string, less: (string, string) -> bool,
      k: string)
    requires StrictTotalOrder(less) && LastOf(key, t, k).Some?
    ensures LastOf(key, InsertBy(y, t, key, less), k) == LastOf(key, t, k)
  {
    if !less(key(t[0]), key(y)) {
      LastOfAppend(key, [y], t, k);
    } else {
      var rest := InsertBy(y, t[1..], key, less);
      assert t == [t[0]] + t[1..];
      LastOfAppend(key, [t[0]], t[1..], k);
      LastOfAppend(key, [t[0]], rest, k);
      if LastOf(key, t[1..], k).Some? {
        InsertKeepsLast(y, t[1..], key, less, k);
      } else {
        InsertMembers(y, t[1..], key, less);
        assert LastOf(key, [t[0]], k).Some? && key(t[0]) == k;
      }
    }
  }

  lemma {:induction false} InsertMembers<T(!new)>(y: T, t: seq<T>, key: T -> string, less: (string, string) -> bool)
    ensures forall x :: x in InsertBy(y, t, key, less) <==> x in t || x == y
  {
    if t != [] && less(key(t[0]), key(y)) {
      InsertMembers(y, t[1..], key, less);
      assert t == [t[0]] + t[1..];
    }
  }

  lemma {:induction false} ArrangeKeepsLast<T(!new)>(s: seq<T>, x: T, key: T -> string, less: (string, string) -> bool)
    requires StrictTotalOrder(less)
    ensures LastOf(key, Arrange(s + [x], key, less), key(x)) == Some(x)
  {
    if s == [] {
      assert s + [x] == [x] && [x][1..] == [];
      assert Arrange([x], key, less) == [x];
      OnlyOne(key, [x], x);
    } else {
      ArrangeKeepsLast(s[1..], x, key, less);
      assert (s + [x])[1..] == s[1..] + [x];
      InsertKeepsLast(s[0], Arrange(s[1..] + [x], key, less), key, less, key(x));
    }
  }

  /** A sorted arrangement of `s` in which `x`, if it is there, comes last of its ties. */
  function ArrangeLast<T(==)>(s: seq<T>, x: T, key: T -> string, less: (string, string) -> bool): seq<T> {
    Arrange(if x in s then Without(s, FirstIndex(s, x)) + [x] else s, key, less)
  }

  lemma ArrangeLastSorts<T(!new)>(s: seq<T>, x: T, key: T -> string, less: (string, string) -> bool)
    requires StrictTotalOrder(less)
    ensures var t := ArrangeLast(s, x, key, less);
      && SortedBy(t, key, less) && multiset(t) == multiset(s)
      && (x in s ==> LastOf(key, t, key(x)) == Some(x))
  {
    if x in s {
      var rest := Without(s, FirstIndex(s, x));
      RemoveOne(s, FirstIndex(s, x));
      ArrangeSorts(rest + [x], key, less);
      ArrangeKeepsLast(rest, x, key, less);
    } else {
      ArrangeSorts(s, key, less);
    }
  }

  // ----- an outcome of one's choice -----

  function SortedWith(e: Edits, node: Option<DeviceNode>, mount: Option<Mount>): Edits {
    e.(nodes := ArrangeLast(e.nodes, node, NodePath, PathLess), mounts := ArrangeLast(e.mounts, mount, MountPath, PathLess))
  }

  lemma SortedWithSorts(e: Edits, node: Option<DeviceNode>, mount: Option<Mount>)
    ensures var s := SortedWith(e, node, mount);
      && SortedEdits(e, s)
      && (node in e.nodes ==> LastOf(NodePath, s.nodes, NodePath(node)) == Some(node))
      && (mount in e.mounts ==> LastOf(MountPath, s.mounts, MountPath(mount)) == Some(mount))
  {
    PathLessIsTotal();
    ArrangeLastSorts(e.nodes, node, NodePath, PathLess);
    ArrangeLastSorts(e.mounts, mount, MountPath, PathLess);
  }

  /** Any sorted versions of the common edits and of each device's survivors make up an outcome. */
  lemma Realize(v: SpecValue, common: Edits, mid: seq<DeviceValue>) returns (w: SpecValue)
    requires SortedEdits(DedupeEdits(v.common), common)
    requires |mid| == |v.devices| && forall i :: 0 <= i < |mid| ==> Fate(v, v.devices[i], mid[i])
    ensures Simplified(v, w) && w.common == common && forall d :: d in mid ==> d in w.devices
  {
    w := SpecValue(Arrange(mid, DeviceName, Less), common);
    LessIsTotal();
    ArrangeSorts(mid, DeviceName, Less);
    SecondDedupeChangesNothing(v);
    EachSorted(v, mid);
    assert SortedDevices(SimplifySpec(DedupeSpec(v)).devices, mid, w.devices);
    SameMembers(w.devices, mid);
  }

  lemma EachSorted(v: SpecValue, mid: seq<DeviceValue>)
    requires |mid| == |v.devices| && forall i :: 0 <= i < |mid| ==> Fate(v, v.devices[i], mid[i])
    ensures SortedEach(StripDevices(EntityIds(DedupeEdits(v.common)), DedupeSpec(v).devices), mid)
  {
    hide SortedEdits, DedupeEdits, EntityIds, StripEdits;
    var ids, ds := EntityIds(DedupeEdits(v.common)), DedupeSpec(v).devices;
    forall i | 0 <= i < |mid| ensures StripDevices(ids, ds)[i] == StripDevice(ids, ds[i]) {
      StripDevicesAt(ids, ds, i);
    }
  }

  lemma FateOf(v: SpecValue, d: DeviceValue, e: Edits)
    requires SortedEdits(Survivors(v, d), e)
    ensures Fate(v, d, d.(edits := e))
  {
  }

  /** The edits of the chosen device are as given, all others sorted somehow. */
  lemma OutcomeWith(v: SpecValue, common: Edits, d: DeviceValue, e: Edits) returns (w: SpecValue)
    requires SortedEdits(DedupeEdits(v.common), common) && SortedEdits(Survivors(v, d), e)
    ensures Simplified(v, w) && w.common == common && (d in v.devices ==> d.(edits := e) in w.devices)
  {
    hide SortedEdits, Survivors, Fate, Simplified, SortedWith;
    var mid := seq(|v.devices|, i requires 0 <= i < |v.devices| =>
      var o := v.devices[i];
      o.(edits := if o == d then e else SortedWith(Survivors(v, o), None, None)));
    forall i | 0 <= i < |mid| ensures Fate(v, v.devices[i], mid[i]) {
      var o := v.devices[i];
      SortedWithSorts(Survivors(v, o), None, None);
      FateOf(v, o, if o == d then e else SortedWith(Survivors(v, o), None, None));
    }
    w := Realize(v, common, mid);
    if d in v.devices {
      var i :| 0 <= i < |v.devices| && v.devices[i] == d;
      assert mid[i] in mid;
    }
  }

  // ----- what the two kinds of placed entries have in common -----

  /** How entries are keyed, identified and found in edits, and sorted edits that leave a given entry last of its ties. */
  datatype Kind<!T> = Kind(
    key: Option<T> -> string, id: T -> string, give: Edits -> seq<Option<T>>, last: (Edits, Option<T>) -> Edits)

  const NODES: Kind<DeviceNode> :=
    Kind(NodePath, NodeId, NodesOf, (e: Edits, x: Option<DeviceNode>) => SortedWith(e, x, None))

  const MOUNTS: Kind<Mount> :=
    Kind(MountPath, MountId, MountsOf, (e: Edits, x: Option<Mount>) => SortedWith(e, None, x))

  ghost predicate Lawful<T(!new)>(kind: Kind<T>) {
    && (forall e: Edits :: kind.give(DedupeEdits(e)) == Unique(kind.give(e)))
    && (forall v: SpecValue, d: DeviceValue ::
          kind.give(Survivors(v, d)) == Keep(Unique(kind.give(d.edits)), PointerSurvives(v, d, kind.id)))
    && (forall e: Edits, s: Edits :: e.NoNil() && SortedEdits(e, s) ==> multiset(kind.give(s)) == multiset(kind.give(e)))
    && (forall e: Edits, x: Option<T> :: e.NoNil() ==> SortedEdits(e, kind.last(e, x)))
    && (forall e: Edits, x: Option<T> :: e.NoNil() && x in kind.give(e) ==>
          LastOf(kind.key, kind.give(kind.last(e, x)), kind.key(x)) == Some(x))
  }

  // ----- the condition -----

  /** Of the entries under a key the last survives, and no other does. */
  ghost predicate OneStays<T(!new)>(key: T -> string, s: seq<T>, p: T -> bool, k: string) {
    forall x :: x in s && key(x) == k ==>
      var l := LastOf(key, s, k).value;
      p(l) && (p(x) ==> x == l)
  }

  lemma OneStaysKeepsLast<T(!new)>(key: T -> string, s: seq<T>, p: T -> bool, t: seq<T>, k: string)
    requires forall x :: x in t <==> x in s && p(x)
    requires OneStays(key, s, p, k)
    ensures LastOf(key, t, k) == LastOf(key, s, k)
  {
    if LastOf(key, s, k).Some? { OnlyOne(key, t, LastOf(key, s, k).value); }
  }

  /**
   * Each path has one entry in the common edits, and one survivor, the last, in every
   * device that reaches a path which the common edits do not overwrite.
   */
  ghost predicate OneAtEachPlace<T(!new)>(kind: Kind<T>, v: SpecValue) {
    && (forall k: string :: OneStays(kind.key, kind.give(v.common), Any(), k))
    && (forall d, k: string :: d in v.devices && LastOf(kind.key, kind.give(v.common), k).None? ==>
          OneStays(kind.key, kind.give(d.edits), PointerSurvives(v, d, kind.id), k))
  }

  lemma CommonMembers<T(!new)>(kind: Kind<T>, v: SpecValue, common: Edits)
    requires Lawful(kind) && SortedEdits(DedupeEdits(v.common), common)
    ensures forall x :: x in kind.give(common) <==> x in kind.give(v.common) && Any()(x)
  {
    hide SortedEdits, DedupeEdits;
    DedupeKeepsIds(v.common);
    SameMembers(kind.give(common), kind.give(DedupeEdits(v.common)));
  }

  lemma DeviceMembers<T(!new)>(kind: Kind<T>, v: SpecValue, d: DeviceValue, e: Edits)
    requires Lawful(kind) && SortedEdits(Survivors(v, d), e)
    ensures forall x :: x in kind.give(e) <==> x in kind.give(d.edits) && PointerSurvives(v, d, kind.id)(x)
  {
    hide SortedEdits, Survives, Survivors, Unique, Keep;
    SurvivorsNoNil(v, d);
    SameMembers(kind.give(e), kind.give(Survivors(v, d)));
  }

  lemma SurvivorsNoNil(v: SpecValue, d: DeviceValue)
    ensures Survivors(v, d).NoNil()
  {
    hide NodeId, HookId, MountId, EntityIds;
    DedupeKeepsIds(d.edits);
    DedupeKeepsIds(v.common);
    SimplifiedIs(DedupeEdits(v.common), DedupeEdits(d.edits));
  }

  /** With one entry at each place, no tie can show. */
  lemma OnePlaceKept<T(!new)>(kind: Kind<T>, v: SpecValue, w: SpecValue)
    requires Lawful(kind) && UniqueNames(v) && Simplified(v, w) && OneAtEachPlace(kind, v)
    ensures SameFinal(kind.key, kind.give, v, w)
  {
    hide Lawful, Simplified, OneStays, SameFinal, Survives, LastOf;
    var mid := SimplifiedOrder(v, w);
    CommonMembers(kind, v, w.common);
    forall k: string ensures LastOf(kind.key, kind.give(w.common), k) == LastOf(kind.key, kind.give(v.common), k) {
      OneStaysKeepsLast(kind.key, kind.give(v.common), Any(), kind.give(w.common), k);
    }
    forall name: string, k: string | LastOf(kind.key, kind.give(v.common), k).None?
      ensures LastOf(kind.key, NamedLists(kind.give, w)(name), k) == LastOf(kind.key, NamedLists(kind.give, v)(name), k)
    {
      var d, e := SelectedIs(kind.give, v, w, name);
      if d.Some? {
        DeviceMembers(kind, v, d.value, e);
        OneStaysKeepsLast(kind.key, kind.give(d.value.edits), PointerSurvives(v, d.value, kind.id), kind.give(e), k);
      }
    }
    SameFinalIff(kind.key, kind.give, v, w);
  }

  // ----- and only then -----

  ghost predicate EveryOutcomeAgrees<T(!new)>(kind: Kind<T>, v: SpecValue) {
    forall w :: Simplified(v, w) ==> SameFinal(kind.key, kind.give, v, w)
  }

  /** An entry of the common edits can be made the last at its path. */
  lemma CommonIsLast<T(!new)>(kind: Kind<T>, v: SpecValue, x: Option<T>)
    requires Lawful(kind) && EveryOutcomeAgrees(kind, v) && x in kind.give(v.common)
    ensures LastOf(kind.key, kind.give(v.common), kind.key(x)) == Some(x)
  {
    hide SortedEdits, Simplified, SameFinal, LastOf, Survivors;
    var e, d := DedupeEdits(v.common), DeviceValue("", map[], EMPTY_EDITS);
    DedupeKeepsIds(v.common);
    SortedWithSorts(Survivors(v, d), None, None);
    var w := OutcomeWith(v, kind.last(e, x), d, SortedWith(Survivors(v, d), None, None));
    SameFinalIff(kind.key, kind.give, v, w);
    assert x in Unique(kind.give(v.common));
  }

  /** What any outcome leaves of a device is what the device left before. */
  lemma DeviceLast<T(!new)>(kind: Kind<T>, v: SpecValue, d: DeviceValue, e: Edits, k: string)
    requires Lawful(kind) && EveryOutcomeAgrees(kind, v) && UniqueNames(v) && d in v.devices
    requires SortedEdits(Survivors(v, d), e) && LastOf(kind.key, kind.give(v.common), k).None?
    ensures LastOf(kind.key, kind.give(e), k) == LastOf(kind.key, kind.give(d.edits), k)
  {
    hide SortedEdits, Simplified, SameFinal, LastOf, Survivors, SortedWith, Lawful;
    SortedWithSorts(DedupeEdits(v.common), None, None);
    var w := OutcomeWith(v, SortedWith(DedupeEdits(v.common), None, None), d, e);
    UniqueNamesKept(v, w);
    ListNamedIs(kind.give, v, d);
    ListNamedIs(kind.give, w, d.(edits := e));
    SameFinalIff(kind.key, kind.give, v, w);
    assert NamedLists(kind.give, w)(d.name) == kind.give(e);
    assert NamedLists(kind.give, v)(d.name) == kind.give(d.edits);
  }

  lemma DeviceOneStays<T(!new)>(kind: Kind<T>, v: SpecValue, d: DeviceValue, k: string)
    requires Lawful(kind) && EveryOutcomeAgrees(kind, v) && UniqueNames(v) && d in v.devices
    requires LastOf(kind.key, kind.give(v.common), k).None?
    ensures OneStays(kind.key, kind.give(d.edits), PointerSurvives(v, d, kind.id), k)
  {
    hide SortedEdits, EveryOutcomeAgrees, Survives, Survivors;
    var s, p := kind.give(d.edits), PointerSurvives(v, d, kind.id);
    SurvivorsNoNil(v, d);
    forall x | x in s && kind.key(x) == k
      ensures p(LastOf(kind.key, s, k).value) && (p(x) ==> x == LastOf(kind.key, s, k).value)
    {
      var e := kind.last(Survivors(v, d), x);
      DeviceLast(kind, v, d, e, k);
      DeviceMembers(kind, v, d, e);
      assert p(x) ==> x in kind.give(Survivors(v, d));
    }
  }

  /** Every outcome leaves what was left before exactly if each place has one entry. */
  lemma PlacesKeptIff<T(!new)>(kind: Kind<T>, v: SpecValue)
    requires Lawful(kind) && UniqueNames(v)
    ensures EveryOutcomeAgrees(kind, v) <==> OneAtEachPlace(kind, v)
  {
    hide Lawful, Simplified, SameFinal;
    if OneAtEachPlace(kind, v) {
      forall w | Simplified(v, w) ensures SameFinal(kind.key, kind.give, v, w) { OnePlaceKept(kind, v, w); }
    }
    if EveryOutcomeAgrees(kind, v) {
      forall k: string ensures OneStays(kind.key, kind.give(v.common), Any(), k) {
        forall x | x in kind.give(v.common) && kind.key(x) == k
          ensures x == LastOf(kind.key, kind.give(v.common), k).value
        {
          CommonIsLast(kind, v, x);
        }
      }
      forall d, k: string | d in v.devices && LastOf(kind.key, kind.give(v.common), k).None?
        ensures OneStays(kind.key, kind.give(d.edits), PointerSurvives(v, d, kind.id), k)
      {
        DeviceOneStays(kind, v, d, k);
      }
    }
  }

  lemma PointersStay<T(!new)>(s: seq<Option<T>>)
    requires None !in s
    ensures NonNil(s) == s
  {
    KeepAll(s, IsPointer());
  }

  lemma NodesAreLawful()
    ensures Lawful(NODES)
  {
    hide NodeId, HookId, MountId, EntityIds, Survives, SortedWith, Survivors;
    forall e: Edits ensures NodesOf(DedupeEdits(e)) == Unique(NodesOf(e)) { PointersStay(DedupeEdits(e).nodes); }
    forall v: SpecValue, d: DeviceValue
      ensures NodesOf(Survivors(v, d)) == Keep(Unique(NodesOf(d.edits)), PointerSurvives(v, d, NodeId))
    {
      SurvivorsAre(v, d);
      SurvivorsNoNil(v, d);
      PointersStay(Survivors(v, d).nodes);
    }
    forall e: Edits, s: Edits | e.NoNil() && SortedEdits(e, s) ensures multiset(NodesOf(s)) == multiset(NodesOf(e)) {
      SortedKeepsEntities(e, s);
      PointersStay(e.nodes);
      PointersStay(s.nodes);
    }
    forall e: Edits, x: Option<DeviceNode> | e.NoNil()
      ensures SortedEdits(e, NODES.last(e, x))
      ensures x in NodesOf(e) ==> LastOf(NodePath, NodesOf(NODES.last(e, x)), NodePath(x)) == Some(x)
    {
      SortedWithSorts(e, x, None);
      SortedKeepsEntities(e, SortedWith(e, x, None));
      PointersStay(e.nodes);
      PointersStay(SortedWith(e, x, None).nodes);
    }
  }

  lemma MountsAreLawful()
    ensures Lawful(MOUNTS)
  {
    hide NodeId, HookId, MountId, EntityIds, Survives, SortedWith, Survivors;
    forall e: Edits ensures MountsOf(DedupeEdits(e)) == Unique(MountsOf(e)) { PointersStay(DedupeEdits(e).mounts); }
    forall v: SpecValue, d: DeviceValue
      ensures MountsOf(Survivors(v, d)) == Keep(Unique(MountsOf(d.edits)), PointerSurvives(v, d, MountId))
    {
      SurvivorsAre(v, d);
      SurvivorsNoNil(v, d);
      PointersStay(Survivors(v, d).mounts);
    }
    forall e: Edits, s: Edits | e.NoNil() && SortedEdits(e, s) ensures multiset(MountsOf(s)) == multiset(MountsOf(e)) {
      SortedKeepsEntities(e, s);
      PointersStay(e.mounts);
      PointersStay(s.mounts);
    }
    forall e: Edits, x: Option<Mount> | e.NoNil()
      ensures SortedEdits(e, MOUNTS.last(e, x))
      ensures x in MountsOf(e) ==> LastOf(MountPath, MountsOf(MOUNTS.last(e, x)), MountPath(x)) == Some(x)
    {
      SortedWithSorts(e, None, x);
      SortedKeepsEntities(e, SortedWith(e, None, x));
      PointersStay(e.mounts);
      PointersStay(SortedWith(e, None, x).mounts);
    }
  }

  /** A container gets the device nodes it got before, whatever ties the sort breaks, exactly under this condition. */
  lemma NodePlacesKeptIff(v: SpecValue)
    requires UniqueNames(v)
    ensures (forall w :: Simplified(v, w) ==> SameFinal(NodePath, NodesOf, v, w)) <==> OneAtEachPlace(NODES, v)
  {
    hide Lawful, Simplified, SameFinal, OneAtEachPlace;
    NodesAreLawful();
    PlacesKeptIff(NODES, v);
  }

  /** The same for mounts. */
  lemma MountPlacesKeptIff(v: SpecValue)
    requires UniqueNames(v)
    ensures (forall w :: Simplified(v, w) ==> SameFinal(MountPath, MountsOf, v, w)) <==> OneAtEachPlace(MOUNTS, v)
  {
    hide Lawful, Simplified, SameFinal, OneAtEachPlace;
    MountsAreLawful();
    PlacesKeptIff(MOUNTS, v);
  }
}
