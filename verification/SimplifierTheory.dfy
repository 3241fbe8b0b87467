/** What the simplifier promises: meaning kept, results canonical up to ties. */
module SimplifierTheory {
  import opened Wrappers
  import opened Sequences
  import opened Strings
  import opened Sorting
  import opened CdiSpec
  import opened Transforms

  // ----- what each pass does to the entities -----

  lemma DedupeKeepsEntities(e: Edits)
    ensures Entities(DedupeEdits(e)) == Entities(e)
  {
    var d := DedupeEdits(e);
    assert NodeEntities(d.nodes) == NodeEntities(e.nodes);
    assert EnvEntities(d.env) == EnvEntities(e.env);
    assert HookEntities(d.hooks) == HookEntities(e.hooks);
    assert MountEntities(d.mounts) == MountEntities(e.mounts);
  }

  ghost function Gids(e: Edits): set<nat> { set g | g in e.gids }

  lemma DedupeKeepsGids(e: Edits)
    ensures Gids(DedupeEdits(e)) == Gids(e)
  {
    var u := Unique(e.gids);
    SortNatsSorts(u);
    forall g ensures g in SortNats(u) <==> g in e.gids {
      assert g in SortNats(u) <==> g in multiset(SortNats(u));
    }
  }

  lemma DedupeLeavesNoNil(v: SpecValue)
    ensures DedupeSpec(v).NoNil()
  {
  }

  lemma RemovedEntities(ids: set<string>, e: Edits)
    ensures Entities(RemoveEdits(ids, e)) == set x | x in Entities(e) && Id(x) !in ids
  {
    hide NodeId, HookId, MountId;
    var r := RemoveEdits(ids, e);
    forall x: Entity ensures x in Entities(r) <==> x in Entities(e) && Id(x) !in ids {
      match x
      case NodeEntity(n) => assert x in Entities(r) <==> Some(n) in r.nodes; assert x in Entities(e) <==> Some(n) in e.nodes;
      case EnvEntity(s) => assert x in Entities(r) <==> s in r.env; assert x in Entities(e) <==> s in e.env;
      case HookEntity(h) => assert x in Entities(r) <==> Some(h) in r.hooks; assert x in Entities(e) <==> Some(h) in e.hooks;
      case MountEntity(m) => assert x in Entities(r) <==> Some(m) in r.mounts; assert x in Entities(e) <==> Some(m) in e.mounts;
    }
  }

  lemma EmptyMeansNoEntities(e: Edits)
    requires e.NoNil()
    ensures e.IsEmpty() <==> Entities(e) == {}
  {
    if e.nodes != [] { assert e.nodes[0] in e.nodes; assert NodeEntity(e.nodes[0].value) in Entities(e); }
    if e.env != [] { assert e.env[0] in e.env; assert EnvEntity(e.env[0]) in Entities(e); }
    if e.hooks != [] { assert e.hooks[0] in e.hooks; assert HookEntity(e.hooks[0].value) in Entities(e); }
    if e.mounts != [] { assert e.mounts[0] in e.mounts; assert MountEntity(e.mounts[0].value) in Entities(e); }
  }

  /** Something is left after the removal unless everything is common. */
  lemma SimplifiedIs(common: Edits, e: Edits)
    requires e.NoNil()
    ensures SimplifyEdits(common, e) ==
      if EntityIds(e) <= EntityIds(common) then e else RemoveEdits(EntityIds(common), e)
  {
    hide NodeId, HookId, MountId, Entities;
    var ids := EntityIds(common);
    var rest := RemoveEdits(ids, e);
    RemovedEntities(ids, e);
    EmptyMeansNoEntities(rest);
    if EntityIds(e) <= ids {
      forall x | x in Entities(e) ensures Id(x) in ids { assert Id(x) in EntityIds(e); }
    } else {
      var i :| i in EntityIds(e) && i !in ids;
      var x :| x in Entities(e) && Id(x) == i;
      assert x in Entities(rest);
    }
  }

  /** Either everything of the device is common and stays, or exactly the common ids go. */
  lemma SimplifiedEntities(common: Edits, e: Edits)
    requires e.NoNil()
    ensures EntityIds(e) <= EntityIds(common) ==> SimplifyEdits(common, e) == e
    ensures !(EntityIds(e) <= EntityIds(common)) ==>
              Entities(SimplifyEdits(common, e)) == set x | x in Entities(e) && Id(x) !in EntityIds(common)
  {
    SimplifiedIs(common, e);
    RemovedEntities(EntityIds(common), e);
  }

  // ----- when removal is harmless -----

  /** An env entry on one side is the JSON text of a node, hook or mount on the other. */
  ghost predicate TextClash(x: Entity, y: Entity) { x.EnvEntity? != y.EnvEntity? && Id(x) == Id(y) }

  ghost predicate Clashes(e: Edits, common: Edits) {
    exists x, y :: x in Entities(e) && x !in Entities(common) && y in Entities(common) && TextClash(x, y)
  }

  ghost predicate Harmless(e: Edits, common: Edits) {
    EntityIds(e) <= EntityIds(common) || !Clashes(e, common)
  }

  /** Removing the common entities from a device changes its effect exactly when texts clash. */
  lemma RemovalIsHarmlessIff(common: Edits, e: Edits)
    requires e.NoNil()
    ensures Entities(SimplifyEdits(common, e)) + Entities(common) == Entities(e) + Entities(common)
       <==> Harmless(e, common)
  {
    hide NodeId, HookId, MountId;
    SimplifiedEntities(common, e);
    var s := SimplifyEdits(common, e);
    if Harmless(e, common) && !(EntityIds(e) <= EntityIds(common)) {
      forall x | x in Entities(e) ensures x in Entities(s) + Entities(common) {
        if x !in Entities(s) {
          var y :| y in Entities(common) && Id(y) == Id(x);
          if x != y { IdCollision(x, y); assert x !in Entities(common) ==> TextClash(x, y); }
        }
      }
    }
    if !Harmless(e, common) {
      var x, y :| x in Entities(e) && x !in Entities(common) && y in Entities(common) && TextClash(x, y);
      assert Id(x) in EntityIds(common);
      assert x !in Entities(s) + Entities(common);
    }
  }

  function EnvText(x: Entity, y: Entity): string
    requires x.EnvEntity? != y.EnvEntity?
  {
    if x.EnvEntity? then x.env else y.env
  }

  lemma ClashingTextHasBrace(x: Entity, y: Entity)
    requires TextClash(x, y)
    ensures EnvText(x, y) != "" && EnvText(x, y)[0] == '{'
  {
    IdStartsWithBrace(if x.EnvEntity? then y else x);
  }

  predicate StartsWithBrace(s: string) { s != "" && s[0] == '{' }

  lemma EnvEntityIsEntry(x: Entity, e: Edits)
    requires x in Entities(e) && x.EnvEntity?
    ensures x.env in e.env
  {
  }

  /** Where no env entry starts with a brace there is nothing to clash. */
  lemma NoBraceNoClash(e: Edits, common: Edits)
    requires forall s :: s in e.env || s in common.env ==> !StartsWithBrace(s)
    ensures !Clashes(e, common)
  {
    forall x, y | x in Entities(e) && y in Entities(common) ensures !TextClash(x, y) {
      if TextClash(x, y) { BracedEntry(x, y, e, common); }
    }
  }

  lemma BracedEntry(x: Entity, y: Entity, e: Edits, common: Edits)
    requires x in Entities(e) && y in Entities(common) && TextClash(x, y)
    ensures exists s :: (s in e.env || s in common.env) && StartsWithBrace(s)
  {
    ClashingTextHasBrace(x, y);
    if x.EnvEntity? { EnvEntityIsEntry(x, e); } else { EnvEntityIsEntry(y, common); }
    assert StartsWithBrace(EnvText(x, y));
  }

  lemma ClashLoses(lost: Entity, kept: Entity, text: Entity, e: Edits, common: Edits)
    requires e.NoNil() && lost in Entities(e) && kept in Entities(e) && Entities(common) == {text}
    requires lost != text && Id(lost) == Id(text) && Id(kept) != Id(text)
    ensures lost !in Entities(SimplifyEdits(common, e)) + Entities(common)
  {
    hide NodeId, HookId, MountId;
    IdOfMember(kept, e);
    OnlyId(text, common);
    SimplifiedEntities(common, e);
    assert lost !in Entities(SimplifyEdits(common, e));
  }

  lemma IdOfMember(x: Entity, e: Edits)
    requires x in Entities(e)
    ensures Id(x) in EntityIds(e)
  {
    hide NodeId, HookId, MountId;
  }

  lemma OnlyId(x: Entity, e: Edits)
    requires Entities(e) == {x}
    ensures EntityIds(e) == {Id(x)}
  {
    hide NodeId, HookId, MountId;
    assert x in Entities(e);
  }

  /** A clash does lose an entity: the common env entry is the text of the device's node. */
  lemma ClashLosesNode(lost: DeviceNode, other: DeviceNode)
    requires lost != other
    ensures var e := EMPTY_EDITS.(nodes := [Some(lost), Some(other)]);
            var common := EMPTY_EDITS.(env := [NodeId(lost)]);
            NodeEntity(lost) in Entities(e) && NodeEntity(lost) !in Entities(SimplifyEdits(common, e)) + Entities(common)
  {
    var e := EMPTY_EDITS.(nodes := [Some(lost), Some(other)]);
    OneEnv(NodeId(lost));
    TwoNodes(lost, other);
    NodeTextsDiffer(lost, other);
    ClashLoses(NodeEntity(lost), NodeEntity(other), EnvEntity(NodeId(lost)), e, EMPTY_EDITS.(env := [NodeId(lost)]));
  }

  lemma OneEnv(s: string)
    ensures Entities(EMPTY_EDITS.(env := [s])) == {EnvEntity(s)}
  {
    var e := EMPTY_EDITS.(env := [s]);
    assert e.env[0] == s;
    assert EnvEntities(e.env) == {EnvEntity(s)};
  }

  lemma TwoNodes(a: DeviceNode, b: DeviceNode)
    ensures var e := EMPTY_EDITS.(nodes := [Some(a), Some(b)]);
            e.NoNil() && NodeEntity(a) in Entities(e) && NodeEntity(b) in Entities(e)
  {
    var e := EMPTY_EDITS.(nodes := [Some(a), Some(b)]);
    assert e.nodes[0] == Some(a) && e.nodes[1] == Some(b);
  }

  lemma NodeTextsDiffer(a: DeviceNode, b: DeviceNode)
    requires a != b
    ensures Id(NodeEntity(b)) != Id(EnvEntity(NodeId(a))) == Id(NodeEntity(a))
  {
    if NodeId(a) == NodeId(b) { NodeIdInjective(a, b); }
  }

  // ----- the whole specification -----

  ghost function DeviceEntities(d: DeviceValue): set<Entity> { Entities(d.edits) }

  ghost function DeviceGids(d: DeviceValue): set<nat> { Gids(d.edits) }

  function Named(name: string): DeviceValue -> bool { (d: DeviceValue) => d.name == name }

  /** Everything the selected devices contribute. */
  ghost function Gathered<D(!new), E(!new)>(s: seq<D>, selected: D -> bool, gives: D -> set<E>): set<E> {
    set d, x | d in s && selected(d) && x in gives(d) :: x
  }

  /** The entities that the edits for device `name` and the common edits list together. */
  ghost function Effective(v: SpecValue, name: string): set<Entity> {
    Gathered(v.devices, Named(name), DeviceEntities) + Entities(v.common)
  }

  ghost function EffectiveGids(v: SpecValue, name: string): set<nat> {
    Gathered(v.devices, Named(name), DeviceGids)
  }

  ghost predicate UniqueNames(v: SpecValue) {
    forall i, j :: 0 <= i < j < |v.devices| ==> v.devices[i].name != v.devices[j].name
  }

  lemma SortedKeepsEntities(e: Edits, s: Edits)
    requires SortedEdits(e, s)
    ensures Entities(s) == Entities(e)
    ensures s.NoNil() == e.NoNil() && EntityIds(s) == EntityIds(e)
  {
    assert forall x :: x in s.nodes <==> x in multiset(s.nodes);
    assert forall x :: x in e.nodes <==> x in multiset(e.nodes);
    assert forall x :: x in s.mounts <==> x in multiset(s.mounts);
    assert forall x :: x in e.mounts <==> x in multiset(e.mounts);
    assert NodeEntities(s.nodes) == NodeEntities(e.nodes);
    assert MountEntities(s.mounts) == MountEntities(e.mounts);
  }

  lemma {:induction false} UniqueNonNilIdempotent<T(!new)>(s: seq<Option<T>>)
    requires NoDuplicates(s) && None !in s
    ensures Unique(NonNil(s)) == s
  {
    KeepAll(s, IsPointer());
    UniqueOfDistinct(s);
  }

  lemma {:induction false} DistinctCounts<T>(s: seq<T>)
    requires NoDuplicates(s)
    ensures forall x :: multiset(s)[x] <= 1
  {
    if s != [] {
      var init := s[..|s| - 1];
      DistinctCounts(init);
      assert s == init + [s[|s| - 1]];
      assert s[|s| - 1] !in init;
    }
  }

  lemma RepeatedCounts<T>(s: seq<T>, i: nat, j: nat)
    requires i < j < |s| && s[i] == s[j]
    ensures multiset(s)[s[i]] >= 2
  {
    assert s == s[..j] + [s[j]] + s[j + 1..];
    assert s[..j][i] == s[i];
    assert s[i] in multiset(s[..j]);
  }

  lemma PermutationKeepsDistinct<T>(s: seq<T>, t: seq<T>)
    requires multiset(s) == multiset(t) && NoDuplicates(s)
    ensures NoDuplicates(t)
  {
    DistinctCounts(s);
    forall i, j | 0 <= i < j < |t| ensures t[i] != t[j] {
      if t[i] == t[j] { RepeatedCounts(t, i, j); }
    }
  }

  // ----- lists without repetition -----

  ghost predicate Deduplicated(e: Edits) {
    && NoDuplicates(e.gids) && Ordered(e.gids, NatLess)
    && NoDuplicates(e.nodes) && NoDuplicates(e.env) && NoDuplicates(e.hooks) && NoDuplicates(e.mounts)
    && e.NoNil()
  }

  lemma DedupeDeduplicates(e: Edits)
    ensures Deduplicated(DedupeEdits(e))
  {
    SortNatsSorts(Unique(e.gids));
    UniqueIsDistinct(e.gids);
    UniqueIsDistinct(NonNil(e.nodes));
    UniqueIsDistinct(e.env);
    UniqueIsDistinct(NonNil(e.hooks));
    UniqueIsDistinct(NonNil(e.mounts));
    PermutationKeepsDistinct(Unique(e.gids), SortNats(Unique(e.gids)));
  }

  lemma DeduplicatedIsFixed(e: Edits)
    requires Deduplicated(e)
    ensures DedupeEdits(e) == e
  {
    UniqueOfDistinct(e.gids);
    UniqueOfDistinct(e.env);
    UniqueNonNilIdempotent(e.nodes);
    UniqueNonNilIdempotent(e.hooks);
    UniqueNonNilIdempotent(e.mounts);
    NatLessIsTotal();
    SortNatsSorts(e.gids);
    SortedKeysAgree(SortNats(e.gids), e.gids, NatLess);
  }

  lemma SimplifyKeepsDeduplicated(common: Edits, e: Edits)
    requires Deduplicated(e)
    ensures Deduplicated(SimplifyEdits(common, e))
  {
    var ids := EntityIds(common);
    KeepDistinct(e.nodes, Outside(ids, NodeId));
    KeepDistinct(e.env, OutsideEnv(ids));
    KeepDistinct(e.hooks, Outside(ids, HookId));
    KeepDistinct(e.mounts, Outside(ids, MountId));
  }

  lemma SortKeepsDeduplicated(e: Edits, s: Edits)
    requires Deduplicated(e) && SortedEdits(e, s)
    ensures Deduplicated(s)
  {
    PermutationKeepsDistinct(e.nodes, s.nodes);
    PermutationKeepsDistinct(e.mounts, s.mounts);
    SortedKeepsEntities(e, s);
  }

  // ----- device by device -----

  /** The fate of one device: deduplicated, stripped of common entities, sorted. */
  ghost predicate Fate(v: SpecValue, d: DeviceValue, w: DeviceValue) {
    && w == d.(edits := w.edits)
    && SortedEdits(SimplifyEdits(DedupeEdits(v.common), DedupeEdits(d.edits)), w.edits)
  }

  lemma SecondDedupeChangesNothing(v: SpecValue)
    ensures SimplifySpec(DedupeSpec(v)) ==
            SpecValue(StripDevices(EntityIds(DedupeEdits(v.common)), DedupeSpec(v).devices), DedupeEdits(v.common))
  {
    var u := DedupeSpec(v);
    DedupeDeduplicates(v.common);
    DeduplicatedIsFixed(u.common);
    forall i | 0 <= i < |v.devices| ensures DedupeDevice(u.devices[i]) == u.devices[i] {
      DedupeDeduplicates(v.devices[i].edits);
      DeduplicatedIsFixed(u.devices[i].edits);
    }
    assert Map(DedupeDevice, u.devices) == u.devices;
  }

  lemma FatesInOrder(v: SpecValue, mid: seq<DeviceValue>)
    requires SortedEach(StripDevices(EntityIds(DedupeEdits(v.common)), DedupeSpec(v).devices), mid)
    ensures |mid| == |v.devices| && forall i :: 0 <= i < |mid| ==> Fate(v, v.devices[i], mid[i])
  {
    var ds := DedupeSpec(v).devices;
    forall i | 0 <= i < |mid| ensures Fate(v, v.devices[i], mid[i]) {
      StripDevicesAt(EntityIds(DedupeEdits(v.common)), ds, i);
    }
  }

  lemma SimplifiedOrder(v: SpecValue, w: SpecValue) returns (mid: seq<DeviceValue>)
    requires Simplified(v, w)
    ensures |mid| == |v.devices| && multiset(w.devices) == multiset(mid)
    ensures forall i :: 0 <= i < |mid| ==> Fate(v, v.devices[i], mid[i])
    ensures SortedEdits(DedupeEdits(v.common), w.common)
    ensures SortedBy(w.devices, DeviceName, Less)
  {
    SecondDedupeChangesNothing(v);
    mid :| SortedDevices(SimplifySpec(DedupeSpec(v)).devices, mid, w.devices);
    FatesInOrder(v, mid);
  }

  lemma SameMembers<T(!new)>(s: seq<T>, t: seq<T>)
    requires multiset(s) == multiset(t)
    ensures |s| == |t| && forall x :: x in s <==> x in t
  {
    assert |multiset(s)| == |multiset(t)|;
    assert forall x :: x in s <==> x in multiset(s);
    assert forall x :: x in t <==> x in multiset(t);
  }

  lemma Origin(v: SpecValue, w: SpecValue, x: DeviceValue) returns (d: DeviceValue)
    requires Simplified(v, w) && x in w.devices
    ensures d in v.devices && Fate(v, d, x)
  {
    var mid := SimplifiedOrder(v, w);
    SameMembers(w.devices, mid);
    var i :| 0 <= i < |mid| && mid[i] == x;
    d := v.devices[i];
  }

  lemma Outcome(v: SpecValue, w: SpecValue, d: DeviceValue) returns (x: DeviceValue)
    requires Simplified(v, w) && d in v.devices
    ensures x in w.devices && Fate(v, d, x)
  {
    var mid := SimplifiedOrder(v, w);
    SameMembers(w.devices, mid);
    var i :| 0 <= i < |v.devices| && v.devices[i] == d;
    x := mid[i];
  }

  /** Joined with the common edits, one device keeps its effect exactly when removal was harmless. */
  lemma FateEffect(v: SpecValue, d: DeviceValue, x: DeviceValue)
    requires Fate(v, d, x)
    ensures Entities(x.edits) + Entities(v.common) == Entities(d.edits) + Entities(v.common)
       <==> Harmless(d.edits, v.common)
    ensures Entities(x.edits) == Entities(SimplifyEdits(DedupeEdits(v.common), DedupeEdits(d.edits))) <= Entities(d.edits)
    ensures Gids(x.edits) == Gids(d.edits)
  {
    hide NodeId, HookId, MountId, Harmless;
    var common, e := DedupeEdits(v.common), DedupeEdits(d.edits);
    SortedKeepsEntities(SimplifyEdits(common, e), x.edits);
    DedupeKeepsGids(d.edits);
    DedupeKeepsEntities(v.common);
    DedupeKeepsEntities(d.edits);
    SimplifyEffect(common, e);
    SameHarm(d.edits, e, v.common, common);
  }

  lemma SimplifyEffect(common: Edits, e: Edits)
    requires e.NoNil()
    ensures Entities(SimplifyEdits(common, e)) <= Entities(e)
    ensures Entities(SimplifyEdits(common, e)) + Entities(common) == Entities(e) + Entities(common) <==> Harmless(e, common)
  {
    SimplifiedEntities(common, e);
    RemovalIsHarmlessIff(common, e);
  }

  lemma SameHarm(e: Edits, e': Edits, common: Edits, common': Edits)
    requires Entities(e) == Entities(e') && Entities(common) == Entities(common')
    ensures Harmless(e, common) == Harmless(e', common')
  {
  }

  // ----- the promises -----

  ghost predicate SameMeaning(v: SpecValue, w: SpecValue) {
    forall name: string :: Effective(v, name) == Effective(w, name)
  }

  lemma CommonKept(v: SpecValue, w: SpecValue)
    requires Simplified(v, w)
    ensures Entities(w.common) == Entities(v.common) && Gids(w.common) == Gids(v.common)
  {
    var mid := SimplifiedOrder(v, w);
    DedupeKeepsEntities(v.common);
    DedupeKeepsGids(v.common);
    SortedKeepsEntities(DedupeEdits(v.common), w.common);
  }

  lemma EffectsInOrder(v: SpecValue, w: SpecValue) returns (mid: seq<DeviceValue>)
    requires Simplified(v, w)
    ensures |mid| == |v.devices| && multiset(w.devices) == multiset(mid)
    ensures forall i :: 0 <= i < |mid| ==> v.devices[i].name == mid[i].name
    ensures forall i :: 0 <= i < |mid| ==> DeviceGids(mid[i]) == DeviceGids(v.devices[i])
    ensures forall i :: 0 <= i < |mid| && Harmless(v.devices[i].edits, v.common) ==>
              DeviceEntities(mid[i]) + Entities(v.common) == DeviceEntities(v.devices[i]) + Entities(v.common)
  {
    mid := SimplifiedOrder(v, w);
    forall i | 0 <= i < |mid|
      ensures v.devices[i].name == mid[i].name && DeviceGids(mid[i]) == DeviceGids(v.devices[i])
      ensures Harmless(v.devices[i].edits, v.common) ==>
                DeviceEntities(mid[i]) + Entities(v.common) == DeviceEntities(v.devices[i]) + Entities(v.common)
    {
      FateEffect(v, v.devices[i], mid[i]);
    }
  }

  /** Every device name keeps its effective edits, whatever repeats and whatever the order. */
  lemma MeaningPreserved(v: SpecValue, w: SpecValue)
    requires Simplified(v, w)
    requires forall d :: d in v.devices ==> Harmless(d.edits, v.common)
    ensures SameMeaning(v, w)
  {
    hide Entities, Simplified;
    CommonKept(v, w);
    var mid := EffectsInOrder(v, w);
    forall name: string ensures Effective(v, name) == Effective(w, name) {
      GatheredAgree(v.devices, mid, Named(name), DeviceEntities, Entities(v.common));
      GatheredPermuted(w.devices, mid, Named(name), DeviceEntities);
    }
  }

  lemma GatheredPermuted<D(!new), E(!new)>(s: seq<D>, t: seq<D>, selected: D -> bool, gives: D -> set<E>)
    requires multiset(s) == multiset(t)
    ensures Gathered(s, selected, gives) == Gathered(t, selected, gives)
  {
    SameMembers(s, t);
  }

  lemma GatheredAgree<D(!new), E(!new)>(
      s: seq<D>, t: seq<D>, selected: D -> bool, gives: D -> set<E>, base: set<E>)
    requires |s| == |t|
    requires forall i :: 0 <= i < |s| ==> selected(s[i]) == selected(t[i]) && gives(t[i]) + base == gives(s[i]) + base
    ensures Gathered(s, selected, gives) + base == Gathered(t, selected, gives) + base
  {
    forall y | y in Gathered(s, selected, gives) ensures y in Gathered(t, selected, gives) + base {
      var i :| 0 <= i < |s| && selected(s[i]) && y in gives(s[i]);
      assert y in gives(t[i]) + base && t[i] in t;
    }
    forall y | y in Gathered(t, selected, gives) ensures y in Gathered(s, selected, gives) + base {
      var i :| 0 <= i < |t| && selected(t[i]) && y in gives(t[i]);
      assert y in gives(s[i]) + base && s[i] in s;
    }
  }

  lemma SameName(v: SpecValue, d: DeviceValue, e: DeviceValue)
    requires UniqueNames(v) && d in v.devices && e in v.devices && d.name == e.name
    ensures d == e
  {
  }

  /** With unique device names the condition is exact: any clash shows in some device's effect. */
  lemma MeaningPreservedIff(v: SpecValue, w: SpecValue)
    requires Simplified(v, w) && UniqueNames(v)
    ensures SameMeaning(v, w) <==> forall d :: d in v.devices ==> Harmless(d.edits, v.common)
  {
    if forall d :: d in v.devices ==> Harmless(d.edits, v.common) {
      MeaningPreserved(v, w);
    }
    forall d | d in v.devices && !Harmless(d.edits, v.common)
      ensures Effective(v, d.name) != Effective(w, d.name)
    {
      HarmShows(v, w, d);
    }
  }

  lemma LostEntity(v: SpecValue, d: DeviceValue, x: DeviceValue) returns (y: Entity)
    requires Fate(v, d, x) && !Harmless(d.edits, v.common)
    ensures y in DeviceEntities(d) && y !in DeviceEntities(x) && y !in Entities(v.common)
  {
    FateEffect(v, d, x);
    y := Missing(DeviceEntities(x), DeviceEntities(d), Entities(v.common));
  }

  lemma Missing<E>(small: set<E>, big: set<E>, base: set<E>) returns (y: E)
    requires small <= big && small + base != big + base
    ensures y in big && y !in small && y !in base
  {
    assert exists z :: z in big && z !in small && z !in base;
    y :| y in big && y !in small && y !in base;
  }

  lemma NamesakesAgree(v: SpecValue, w: SpecValue, d: DeviceValue, x: DeviceValue, y: DeviceValue)
    requires Simplified(v, w) && UniqueNames(v) && d in v.devices && Fate(v, d, x)
    requires y in w.devices && y.name == d.name
    ensures DeviceEntities(y) == DeviceEntities(x)
  {
    var e := Origin(v, w, y);
    SameName(v, d, e);
    FateEffect(v, d, x);
    FateEffect(v, d, y);
  }

  lemma HarmShows(v: SpecValue, w: SpecValue, d: DeviceValue)
    requires Simplified(v, w) && UniqueNames(v) && d in v.devices && !Harmless(d.edits, v.common)
    ensures Effective(v, d.name) != Effective(w, d.name)
  {
    var x := Outcome(v, w, d);
    var y := LostEntity(v, d, x);
    CommonKept(v, w);
    forall x' | x' in w.devices && Named(d.name)(x') ensures y !in DeviceEntities(x') {
      NamesakesAgree(v, w, d, x, x');
    }
    NobodyGives(w.devices, Named(d.name), DeviceEntities, y);
    SomebodyGives(v.devices, Named(d.name), DeviceEntities, d, y);
  }

  lemma SomebodyGives<D(!new), E(!new)>(s: seq<D>, selected: D -> bool, gives: D -> set<E>, d: D, y: E)
    requires d in s && selected(d) && y in gives(d)
    ensures y in Gathered(s, selected, gives)
  {
  }

  lemma NobodyGives<D(!new), E(!new)>(s: seq<D>, selected: D -> bool, gives: D -> set<E>, y: E)
    requires forall d :: d in s && selected(d) ==> y !in gives(d)
    ensures y !in Gathered(s, selected, gives)
  {
  }

  /** Group ids are deduplicated but never moved between devices and the common edits. */
  lemma GidsKept(v: SpecValue, w: SpecValue, name: string)
    requires Simplified(v, w)
    ensures EffectiveGids(v, name) == EffectiveGids(w, name) && Gids(v.common) == Gids(w.common)
  {
    hide Gids, Simplified;
    CommonKept(v, w);
    var mid := EffectsInOrder(v, w);
    GatheredAgree(v.devices, mid, Named(name), DeviceGids, {});
    GatheredPermuted(w.devices, mid, Named(name), DeviceGids);
    assert EffectiveGids(v, name) + {} == EffectiveGids(v, name);
    assert EffectiveGids(w, name) + {} == EffectiveGids(w, name);
  }

  /** A device ends up sharing nothing with the common edits, or nothing but common entities. */
  lemma AllOrNothingShared(v: SpecValue, w: SpecValue, x: DeviceValue)
    requires Simplified(v, w) && x in w.devices
    ensures EntityIds(x.edits) <= EntityIds(w.common) || EntityIds(x.edits) !! EntityIds(w.common)
  {
    var d := Origin(v, w, x);
    var mid := SimplifiedOrder(v, w);
    SortedKeepsEntities(DedupeEdits(v.common), w.common);
    FateShares(v, d, x);
  }

  lemma FateShares(v: SpecValue, d: DeviceValue, x: DeviceValue)
    requires Fate(v, d, x)
    ensures var ids := EntityIds(DedupeEdits(v.common)); EntityIds(x.edits) <= ids || EntityIds(x.edits) !! ids
  {
    var common, e := DedupeEdits(v.common), DedupeEdits(d.edits);
    SortedKeepsEntities(SimplifyEdits(common, e), x.edits);
    SimplifiedEntities(common, e);
    if !(EntityIds(e) <= EntityIds(common)) {
      FilteredIds(SimplifyEdits(common, e), e, EntityIds(common));
    }
  }

  lemma FilteredIds(s: Edits, e: Edits, ids: set<string>)
    requires Entities(s) == set x | x in Entities(e) && Id(x) !in ids
    ensures EntityIds(s) !! ids
  {
  }

  /** A device that had an entity to begin with still has one. */
  lemma DevicesStayNonEmpty(v: SpecValue, d: DeviceValue, x: DeviceValue)
    requires Fate(v, d, x) && Entities(d.edits) != {}
    ensures !x.edits.IsEmpty()
  {
    var common, e := DedupeEdits(v.common), DedupeEdits(d.edits);
    DedupeKeepsEntities(d.edits);
    EmptyMeansNoEntities(e);
    SortedKeepsEntities(SimplifyEdits(common, e), x.edits);
    EmptyMeansNoEntities(SimplifyEdits(common, e));
    EmptyMeansNoEntities(x.edits);
  }

  lemma NamesKept(v: SpecValue, w: SpecValue)
    requires Simplified(v, w)
    ensures multiset(Map(DeviceName, w.devices)) == multiset(Map(DeviceName, v.devices))
  {
    var mid := SimplifiedOrder(v, w);
    MapPermutes(DeviceName, w.devices, mid);
    assert Map(DeviceName, mid) == Map(DeviceName, v.devices);
  }

  /** Env entries keep the order in which the device first listed them. */
  lemma EnvOrderKept(v: SpecValue, d: DeviceValue, x: DeviceValue, i: nat, j: nat)
    requires Fate(v, d, x) && i < j < |x.edits.env|
    ensures x.edits.env[i] in d.edits.env && x.edits.env[j] in d.edits.env
    ensures FirstIndex(d.edits.env, x.edits.env[i]) < FirstIndex(d.edits.env, x.edits.env[j])
  {
    var u := Unique(d.edits.env);
    var k, l := i, j;
    if x.edits.env != u {
      k, l := KeepOrder(u, OutsideEnv(EntityIds(DedupeEdits(v.common))), i, j);
    }
    assert u[k] in u && u[l] in u;
    UniqueKeepsOrder(d.edits.env, k, l);
  }

  /** And so do hooks, nil entries aside. */
  lemma HookOrderKept(v: SpecValue, d: DeviceValue, x: DeviceValue, i: nat, j: nat)
    requires Fate(v, d, x) && i < j < |x.edits.hooks|
    ensures x.edits.hooks[i] in NonNil(d.edits.hooks) && x.edits.hooks[j] in NonNil(d.edits.hooks)
    ensures FirstIndex(NonNil(d.edits.hooks), x.edits.hooks[i]) < FirstIndex(NonNil(d.edits.hooks), x.edits.hooks[j])
  {
    var s := NonNil(d.edits.hooks);
    var u := Unique(s);
    var k, l := i, j;
    if x.edits.hooks != u {
      k, l := KeepOrder(u, Outside(EntityIds(DedupeEdits(v.common)), HookId), i, j);
    }
    assert u[k] in u && u[l] in u;
    UniqueKeepsOrder(s, k, l);
  }

  // ----- a second run -----

  lemma NothingToRemove(ids: set<string>, e: Edits)
    requires e.NoNil() && EntityIds(e) !! ids
    ensures RemoveEdits(ids, e) == e
  {
    forall x | x in Entities(e) ensures Id(x) !in ids { IdOfMember(x, e); }
    forall n | n in e.nodes ensures Outside(ids, NodeId)(n) { assert NodeEntity(n.value) in Entities(e); }
    forall s | s in e.env ensures OutsideEnv(ids)(s) { assert EnvEntity(s) in Entities(e); }
    forall h | h in e.hooks ensures Outside(ids, HookId)(h) { assert HookEntity(h.value) in Entities(e); }
    forall m | m in e.mounts ensures Outside(ids, MountId)(m) { assert MountEntity(m.value) in Entities(e); }
    KeepAll(e.nodes, Outside(ids, NodeId));
    KeepAll(e.env, OutsideEnv(ids));
    KeepAll(e.hooks, Outside(ids, HookId));
    KeepAll(e.mounts, Outside(ids, MountId));
  }

  lemma FateDeduplicated(v: SpecValue, d: DeviceValue, x: DeviceValue)
    requires Fate(v, d, x)
    ensures Deduplicated(x.edits) && InSortOrder(x.edits)
  {
    var common, e := DedupeEdits(v.common), DedupeEdits(d.edits);
    DedupeDeduplicates(d.edits);
    SimplifyKeepsDeduplicated(common, e);
    SortKeepsDeduplicated(SimplifyEdits(common, e), x.edits);
  }

  lemma FateSettled(v: SpecValue, w: SpecValue, x: DeviceValue)
    requires Simplified(v, w) && x in w.devices
    ensures Deduplicated(x.edits) && InSortOrder(x.edits) && SimplifyEdits(w.common, x.edits) == x.edits
  {
    var d := Origin(v, w, x);
    FateDeduplicated(v, d, x);
    AllOrNothingShared(v, w, x);
    SettledEdits(w.common, x.edits);
  }

  lemma SettledEdits(common: Edits, e: Edits)
    requires e.NoNil() && (EntityIds(e) <= EntityIds(common) || EntityIds(e) !! EntityIds(common))
    ensures SimplifyEdits(common, e) == e
  {
    if EntityIds(e) <= EntityIds(common) {
      SimplifiedEntities(common, e);
    } else {
      NothingToRemove(EntityIds(common), e);
    }
  }

  lemma CommonSettled(v: SpecValue, w: SpecValue)
    requires Simplified(v, w)
    ensures DedupeEdits(w.common) == w.common && InSortOrder(w.common)
  {
    var mid := SimplifiedOrder(v, w);
    DedupeDeduplicates(v.common);
    SortKeepsDeduplicated(DedupeEdits(v.common), w.common);
    DeduplicatedIsFixed(w.common);
  }

  lemma NothingLost(ids: set<string>, d: DeviceValue)
    requires StripEdits(ids, d.edits) == d.edits
    ensures StripDevice(ids, d) == d
  {
    hide StripEdits;
  }

  lemma {:induction false} NothingToStrip(ids: set<string>, devices: seq<DeviceValue>)
    requires forall d :: d in devices ==> StripEdits(ids, d.edits) == d.edits
    ensures StripDevices(ids, devices) == devices
  {
    hide StripEdits;
    var out := StripDevices(ids, devices);
    forall i | 0 <= i < |devices| ensures out[i] == devices[i] {
      StripDevicesAt(ids, devices, i);
      NothingLost(ids, devices[i]);
    }
  }

  lemma SettledSpec(w: SpecValue)
    requires DedupeEdits(w.common) == w.common
    requires forall d :: d in w.devices ==> DedupeEdits(d.edits) == d.edits && SimplifyEdits(w.common, d.edits) == d.edits
    ensures SimplifySpec(DedupeSpec(w)) == w
  {
    hide StripEdits, DedupeEdits, EntityIds;
    SecondDedupeChangesNothing(w);
    assert Map(DedupeDevice, w.devices) == w.devices;
    NothingToStrip(EntityIds(w.common), w.devices);
  }

  /** The first two passes leave a simplified specification alone. */
  lemma SimplifiedIsSettled(v: SpecValue, w: SpecValue)
    requires Simplified(v, w)
    ensures SimplifySpec(DedupeSpec(w)) == w
  {
    CommonSettled(v, w);
    forall d | d in w.devices ensures DedupeEdits(d.edits) == d.edits && SimplifyEdits(w.common, d.edits) == d.edits {
      FateSettled(v, w, d);
      DeduplicatedIsFixed(d.edits);
    }
    SettledSpec(w);
  }

  /** `s` differs from `e` only in the order of nodes, and of mounts, with equal paths. */
  ghost predicate EqualUpToTies(e: Edits, s: Edits) {
    && s == e.(nodes := s.nodes, mounts := s.mounts)
    && multiset(s.nodes) == multiset(e.nodes) && Map(NodePath, s.nodes) == Map(NodePath, e.nodes)
    && multiset(s.mounts) == multiset(e.mounts) && Map(MountPath, s.mounts) == Map(MountPath, e.mounts)
  }

  ghost predicate InSortOrder(e: Edits) {
    SortedBy(e.nodes, NodePath, PathLess) && SortedBy(e.mounts, MountPath, PathLess)
  }

  ghost predicate DistinctPaths(e: Edits) {
    DistinctKeys(e.nodes, NodePath) && DistinctKeys(e.mounts, MountPath)
  }

  lemma ResortIsTies(e: Edits, s: Edits)
    requires InSortOrder(e) && SortedEdits(e, s)
    ensures EqualUpToTies(e, s)
    ensures DistinctPaths(e) ==> s == e
  {
    PathLessIsTotal();
    SortedUpToTies(s.nodes, e.nodes, NodePath, PathLess);
    SortedUpToTies(s.mounts, e.mounts, MountPath, PathLess);
    if DistinctPaths(e) {
      SortedDistinctAgree(e.nodes, s.nodes, NodePath, PathLess);
      SortedDistinctAgree(e.mounts, s.mounts, MountPath, PathLess);
    }
  }

  /** The second run amounts to sorting again what is sorted already. */
  lemma SecondRunSorts(u: SpecValue, v: SpecValue, w: SpecValue) returns (mid: seq<DeviceValue>)
    requires Simplified(u, v) && Simplified(v, w)
    ensures InSortOrder(v.common) && SortedEdits(v.common, w.common)
    ensures forall i :: 0 <= i < |v.devices| ==> InSortOrder(v.devices[i].edits)
    ensures SortedBy(v.devices, DeviceName, Less)
    ensures SortedDevices(v.devices, mid, w.devices)
  {
    hide NodeId, HookId, MountId, Fate;
    SimplifiedIsSettled(u, v);
    mid :| SortedDevices(v.devices, mid, w.devices);
    var order := SimplifiedOrder(u, v);
    forall i | 0 <= i < |v.devices| ensures InSortOrder(v.devices[i].edits) {
      FateSettled(u, v, v.devices[i]);
    }
  }

  /** Simplifying twice: the second run may only reorder entries tied on their sort key. */
  lemma SecondRunOnlyReordersTies(u: SpecValue, v: SpecValue, w: SpecValue) returns (mid: seq<DeviceValue>)
    requires Simplified(u, v) && Simplified(v, w)
    ensures EqualUpToTies(v.common, w.common)
    ensures |mid| == |v.devices| && multiset(w.devices) == multiset(mid)
    ensures forall i :: 0 <= i < |mid| ==>
              mid[i] == v.devices[i].(edits := mid[i].edits) && EqualUpToTies(v.devices[i].edits, mid[i].edits)
    ensures Map(DeviceName, w.devices) == Map(DeviceName, v.devices)
  {
    hide Simplified, SortedEdits, InSortOrder, EqualUpToTies;
    mid := SecondRunSorts(u, v, w);
    ResortIsTies(v.common, w.common);
    ResortEach(v.devices, mid);
    SameNamesAgree(v.devices, mid, w.devices);
  }

  lemma ResortEach(s: seq<DeviceValue>, mid: seq<DeviceValue>)
    requires SortedEach(s, mid) && forall i :: 0 <= i < |s| ==> InSortOrder(s[i].edits)
    ensures forall i :: 0 <= i < |s| ==> EqualUpToTies(s[i].edits, mid[i].edits)
    ensures (forall i :: 0 <= i < |s| ==> DistinctPaths(s[i].edits)) ==> mid == s
  {
    forall i | 0 <= i < |s|
      ensures EqualUpToTies(s[i].edits, mid[i].edits) && (DistinctPaths(s[i].edits) ==> mid[i] == s[i])
    {
      ResortIsTies(s[i].edits, mid[i].edits);
    }
  }

  lemma SameNamesAgree(s: seq<DeviceValue>, mid: seq<DeviceValue>, t: seq<DeviceValue>)
    requires |mid| == |s| && forall i :: 0 <= i < |s| ==> mid[i].name == s[i].name
    requires multiset(t) == multiset(mid)
    requires SortedBy(s, DeviceName, Less) && SortedBy(t, DeviceName, Less)
    ensures Map(DeviceName, t) == Map(DeviceName, s)
  {
    LessIsTotal();
    MapPermutes(DeviceName, t, mid);
    assert Map(DeviceName, mid) == Map(DeviceName, s);
    SortedKeysAgree(Map(DeviceName, t), Map(DeviceName, s), Less);
  }

  /** With distinct names and paths the second run changes nothing at all. */
  lemma SecondRunIdentity(u: SpecValue, v: SpecValue, w: SpecValue)
    requires Simplified(u, v) && Simplified(v, w)
    requires UniqueNames(v) && DistinctPaths(v.common)
    requires forall i :: 0 <= i < |v.devices| ==> DistinctPaths(v.devices[i].edits)
    ensures w == v
  {
    var mid := SecondRunSorts(u, v, w);
    ResortIsTies(v.common, w.common);
    ResortEach(v.devices, mid);
    ResortNames(v, w.devices);
  }

  lemma ResortNames(v: SpecValue, out: seq<DeviceValue>)
    requires UniqueNames(v) && multiset(out) == multiset(v.devices)
    requires SortedBy(v.devices, DeviceName, Less) && SortedBy(out, DeviceName, Less)
    ensures out == v.devices
  {
    LessIsTotal();
    SortedDistinctAgree(v.devices, out, DeviceName, Less);
  }

  /** The host path is no tie-break: both orders of nodes with one container path count as sorted. */
  lemma HostPathBreaksNoTie(a: DeviceNode, b: DeviceNode)
    requires a.path == b.path
    ensures SortedBy([Some(a), Some(b)], NodePath, PathLess) && SortedBy([Some(b), Some(a)], NodePath, PathLess)
  {
    PathLessIsTotal();
    assert !PathLess(a.path, a.path);
  }

  // ----- the merged device -----

  function Anyone(): DeviceValue -> bool { (d: DeviceValue) => true }

  lemma GatheredSnoc<D(!new), E(!new)>(s: seq<D>, d: D, selected: D -> bool, gives: D -> set<E>)
    ensures Gathered(s + [d], selected, gives) == Gathered(s, selected, gives) + (if selected(d) then gives(d) else {})
  {
    assert forall x :: x in s + [d] <==> x in s || x == d;
  }

  lemma {:induction false} MergedEntities(devices: seq<DeviceValue>)
    ensures Entities(MergeEdits(devices)) == Gathered(devices, Anyone(), DeviceEntities)
    ensures Gids(MergeEdits(devices)) == Gathered(devices, Anyone(), DeviceGids)
  {
    if devices == [] {
      assert Entities(EMPTY_EDITS) == {};
      assert Gids(EMPTY_EDITS) == {};
    } else {
      var init, last := devices[..|devices| - 1], devices[|devices| - 1];
      assert devices == init + [last];
      MergedEntities(init);
      AppendedEntities(MergeEdits(init), last.edits);
      GatheredSnoc(init, last, Anyone(), DeviceEntities);
      GatheredSnoc(init, last, Anyone(), DeviceGids);
    }
  }

  lemma AppendedEntities(e: Edits, o: Edits)
    ensures Entities(AppendEdits(e, o)) == Entities(e) + Entities(o)
    ensures Gids(AppendEdits(e, o)) == Gids(e) + Gids(o)
  {
    var a := AppendEdits(e, o);
    assert NodeEntities(a.nodes) == NodeEntities(e.nodes) + NodeEntities(o.nodes);
    assert EnvEntities(a.env) == EnvEntities(e.env) + EnvEntities(o.env);
    assert HookEntities(a.hooks) == HookEntities(e.hooks) + HookEntities(o.hooks);
    assert MountEntities(a.mounts) == MountEntities(e.mounts) + MountEntities(o.mounts);
  }

  /** A merged device clashes only if some device did. */
  lemma {:induction false} MergedClash(devices: seq<DeviceValue>, common: Edits)
    requires forall d :: d in devices ==> !Clashes(d.edits, common)
    ensures !Clashes(MergeEdits(devices), common)
  {
    MergedEntities(devices);
    forall x, y | x in Entities(MergeEdits(devices)) && x !in Entities(common) && y in Entities(common)
      ensures !TextClash(x, y)
    {
      var o :| o in devices && x in DeviceEntities(o);
      assert TextClash(x, y) ==> Clashes(o.edits, common);
    }
  }

  lemma NobodyNamed<E(!new)>(s: seq<DeviceValue>, name: string, gives: DeviceValue -> set<E>)
    requires forall d :: d in s ==> d.name != name
    ensures Gathered(s, Named(name), gives) == {}
  {
  }

  lemma AddMergedIsHarmless(v: SpecValue, name: string)
    requires forall d :: d in v.devices ==> !Clashes(d.edits, v.common)
    ensures var m := AddMerged(v, name); forall d :: d in m.devices ==> Harmless(d.edits, m.common)
  {
    MergedClash(v.devices, v.common);
  }

  lemma AddMergedEffects(v: SpecValue, name: string)
    requires !HasDevice(v, name)
    ensures forall n: string :: n != name ==> Effective(AddMerged(v, name), n) == Effective(v, n)
    ensures Effective(AddMerged(v, name), name) == Gathered(v.devices, Anyone(), DeviceEntities) + Entities(v.common)
    ensures EffectiveGids(AddMerged(v, name), name) == Gathered(v.devices, Anyone(), DeviceGids)
    ensures forall n: string :: n != name ==> EffectiveGids(AddMerged(v, name), n) == EffectiveGids(v, n)
  {
    var m := AddMerged(v, name);
    var added := m.devices[|v.devices|];
    MergedEntities(v.devices);
    forall n: string
      ensures n != name ==> Effective(m, n) == Effective(v, n) && EffectiveGids(m, n) == EffectiveGids(v, n)
    {
      GatheredSnoc(v.devices, added, Named(n), DeviceEntities);
      GatheredSnoc(v.devices, added, Named(n), DeviceGids);
    }
    GatheredSnoc(v.devices, added, Named(name), DeviceEntities);
    GatheredSnoc(v.devices, added, Named(name), DeviceGids);
    NobodyNamed(v.devices, name, DeviceEntities);
    NobodyNamed(v.devices, name, DeviceGids);
  }

  /** Adding the merged device: the others keep their effect, the new one has everybody's. */
  lemma MergedDeviceMeaning(v: SpecValue, name: string, w: SpecValue)
    requires !HasDevice(v, name) && Simplified(AddMerged(v, name), w)
    requires forall d :: d in v.devices ==> !Clashes(d.edits, v.common)
    ensures forall n: string :: n != name ==> Effective(w, n) == Effective(v, n)
    ensures Effective(w, name) == Gathered(v.devices, Anyone(), DeviceEntities) + Entities(v.common)
    ensures EffectiveGids(w, name) == Gathered(v.devices, Anyone(), DeviceGids)
    ensures forall n: string :: n != name ==> EffectiveGids(w, n) == EffectiveGids(v, n)
  {
    AddMergedIsHarmless(v, name);
    AddMergedEffects(v, name);
    MeaningPreserved(AddMerged(v, name), w);
    forall n: string ensures EffectiveGids(AddMerged(v, name), n) == EffectiveGids(w, n) {
      GidsKept(AddMerged(v, name), w, n);
    }
  }

  // ----- the order of what comes out -----

  /** One clean path is a proper ancestor of the other. */
  ghost predicate Above(a: string, b: string) { CleanAbsolute(a) && CleanAbsolute(b) && Ancestor(a, b) }

  ghost predicate MountsInOrder(s: seq<Option<Mount>>) {
    && (forall i, j :: 0 <= i < |s| && 0 <= j < |s| && s[i].Some? && s[j].Some? ==>
          Above(s[i].value.containerPath, s[j].value.containerPath) ==> i < j)
    && forall i, j :: 0 <= i < j < |s| && s[i].Some? && s[j].Some? ==>
         !PathLess(s[j].value.containerPath, s[i].value.containerPath)
  }

  ghost predicate NodesInOrder(s: seq<Option<DeviceNode>>) {
    && (forall i, j :: 0 <= i < |s| && 0 <= j < |s| && s[i].Some? && s[j].Some? ==>
          Above(s[i].value.path, s[j].value.path) ==> i < j)
    && forall i, j :: 0 <= i < j < |s| && s[i].Some? && s[j].Some? ==> !PathLess(s[j].value.path, s[i].value.path)
  }

  ghost predicate GidsInOrder(s: seq<nat>) { forall i, j :: 0 <= i < j < |s| ==> s[i] < s[j] }

  /** Mounts stand by container path and device nodes by path, a directory before what lies in it; group ids ascend. */
  ghost predicate InOrder(e: Edits) { MountsInOrder(e.mounts) && NodesInOrder(e.nodes) && GidsInOrder(e.gids) }

  lemma SortedListsInOrder(e: Edits, s: Edits)
    requires SortedEdits(e, s)
    ensures MountsInOrder(s.mounts) && NodesInOrder(s.nodes)
  {
    hide Above, PathLess;
    forall i, j | 0 <= i < |s.mounts| && 0 <= j < |s.mounts| && s.mounts[i].Some? && s.mounts[j].Some?
      && Above(s.mounts[i].value.containerPath, s.mounts[j].value.containerPath) ensures i < j
    {
      AboveComesFirst(s.mounts, MountPath, i, j);
    }
    forall i, j | 0 <= i < |s.nodes| && 0 <= j < |s.nodes| && s.nodes[i].Some? && s.nodes[j].Some?
      && Above(s.nodes[i].value.path, s.nodes[j].value.path) ensures i < j
    {
      AboveComesFirst(s.nodes, NodePath, i, j);
    }
  }

  lemma AboveComesFirst<T>(s: seq<T>, path: T -> string, i: nat, j: nat)
    requires SortedBy(s, path, PathLess) && i < |s| && j < |s| && Above(path(s[i]), path(s[j]))
    ensures i < j
  {
    SortedAncestorsFirst(s, path, i, j);
  }

  lemma GidsAscend(e: Edits)
    ensures GidsInOrder(DedupeEdits(e).gids)
  {
    var s, t := Unique(e.gids), SortNats(Unique(e.gids));
    SortNatsSorts(s);
    UniqueIsDistinct(e.gids);
    PermutationKeepsDistinct(s, t);
  }

  lemma FateInOrder(v: SpecValue, d: DeviceValue, x: DeviceValue)
    requires Fate(v, d, x)
    ensures InOrder(x.edits)
  {
    hide DedupeEdits, StripEdits, MountsInOrder, NodesInOrder, GidsInOrder;
    var e := SimplifyEdits(DedupeEdits(v.common), DedupeEdits(d.edits));
    SortedListsInOrder(e, x.edits);
    GidsAscend(d.edits);
    StripKeepsGids(EntityIds(DedupeEdits(v.common)), DedupeEdits(d.edits));
  }

  lemma SortedInOrder(e: Edits, s: Edits)
    requires SortedEdits(DedupeEdits(e), s)
    ensures InOrder(s)
  {
    hide DedupeEdits, MountsInOrder, NodesInOrder, GidsInOrder;
    SortedListsInOrder(DedupeEdits(e), s);
    GidsAscend(e);
  }

  lemma StripKeepsGids(ids: set<string>, e: Edits)
    ensures StripEdits(ids, e).gids == e.gids
  {
  }

  /** In every outcome, all lists of the common edits and of each device are in order, and so are the devices by name. */
  lemma {:induction false} OutcomeInOrder(v: SpecValue, w: SpecValue)
    requires Simplified(v, w)
    ensures InOrder(w.common) && forall d :: d in w.devices ==> InOrder(d.edits)
    ensures forall i, j :: 0 <= i < j < |w.devices| ==> !Less(w.devices[j].name, w.devices[i].name)
  {
    hide Simplified, SortedEdits, Fate, InOrder, Less;
    var mid := SimplifiedOrder(v, w);
    SortedInOrder(v.common, w.common);
    forall d | d in w.devices ensures InOrder(d.edits) {
      var o := Origin(v, w, d);
      FateInOrder(v, o, d);
    }
    forall i, j | 0 <= i < j < |w.devices| ensures !Less(w.devices[j].name, w.devices[i].name) {
      assert !Less(DeviceName(w.devices[j]), DeviceName(w.devices[i]));
    }
  }
}
