/**
 * The CDI transformers over specification objects.
 *
 * A Spec is updated in place. A ContainerEdits or a Device is a struct: copying
 * one copies its list references, so copies of a device share their arrays. Only
 * lists that some pass sorts in place are arrays here.
 */
module Transformers {
  import opened Wrappers
  import opened Sequences
  import opened Strings
  import opened Sorting
  import opened CdiSpec
  import opened Transforms
  import opened SimplifierTheory

  datatype ContainerEdits = ContainerEdits(
    additionalGIDs: seq<nat>,
    deviceNodes: array<Option<DeviceNode>>,
    env: seq<string>,
    hooks: seq<Option<Hook>>,
    mounts: array<Option<Mount>>,
    netDevices: seq<NetDevice>,
    intelRdt: Option<IntelRdt>)
  {
    function Contents(): Edits
      reads deviceNodes, mounts
    {
      Edits(additionalGIDs, deviceNodes[..], env, hooks, mounts[..], netDevices, intelRdt)
    }

    /** The struct, with the present contents of its arrays, is `v`. */
    ghost predicate Holds(v: Edits)
      reads deviceNodes, mounts
    {
      v == Contents()
    }

    predicate IsEmpty() {
      deviceNodes.Length == 0 && |env| == 0 && |hooks| == 0 && mounts.Length == 0
    }
  }

  datatype Device = Device(name: string, annotations: map<string, string>, edits: ContainerEdits)
  {
    ghost predicate Holds(v: DeviceValue)
      reads edits.deviceNodes, edits.mounts
    {
      v.name == name && v.annotations == annotations && edits.Holds(v.edits)
    }
  }

  /** The devices stand for `vs`; their arrays lie within `footprint`. */
  ghost predicate HoldAll(devices: seq<Device>, vs: seq<DeviceValue>, footprint: set<object>)
    reads footprint
  {
    && |devices| == |vs|
    && (forall k :: 0 <= k < |vs| ==> devices[k].edits.deviceNodes in footprint && devices[k].edits.mounts in footprint)
    && (forall k :: 0 <= k < |vs| ==> devices[k].Holds(vs[k]))
  }

  lemma HoldAllSnoc(devices: seq<Device>, d: Device, vs: seq<DeviceValue>, v: DeviceValue, footprint: set<object>,
      more: set<object>)
    requires HoldAll(devices, vs, footprint) && d.Holds(v) && footprint <= more
    requires d.edits.deviceNodes in more && d.edits.mounts in more
    ensures HoldAll(devices + [d], vs + [v], more)
  {
  }

  class Spec {
    var devices: seq<Device>
    var containerEdits: ContainerEdits

    constructor (devices: seq<Device>, containerEdits: ContainerEdits)
      ensures this.devices == devices && this.containerEdits == containerEdits
    {
      this.devices, this.containerEdits := devices, containerEdits;
    }

    /** The specification stands for `v`; its arrays lie within `footprint`. */
    ghost predicate Holds(v: SpecValue, footprint: set<object>)
      reads this, footprint
    {
      && HoldAll(devices, v.devices, footprint)
      && containerEdits.deviceNodes in footprint && containerEdits.mounts in footprint && containerEdits.Holds(v.common)
    }
  }

  // ----- deduplicate -----

  ghost function IdsOf<T(!new)>(s: seq<Option<T>>, id: T -> string): set<string> {
    set x | x in s && x.Some? :: id(x.value)
  }

  lemma IdsSnoc<T(!new)>(s: seq<Option<T>>, x: T, id: T -> string)
    ensures IdsOf(s + [Some(x)], id) == IdsOf(s, id) + {id(x)}
  {
    assert Some(x) in s + [Some(x)];
  }

  lemma IdTells<T(!new)>(s: seq<Option<T>>, x: T, id: T -> string)
    requires Injective(id)
    ensures id(x) in IdsOf(s, id) <==> Some(x) in s
  {
  }

  lemma UniqueNonNilNext<T(!new)>(s: seq<Option<T>>, i: nat)
    requires i < |s|
    ensures var kept := Unique(NonNil(s[..i]));
            Unique(NonNil(s[..i + 1])) == if s[i].Some? && s[i] !in kept then kept + [s[i]] else kept
  {
    UniqueKeepNext(s, i, IsPointer());
  }

  /** The loop of deduplicateDeviceNodes, deduplicateHooks and deduplicateMounts. */
  method DeduplicateEntities<T(!new)>(entities: seq<Option<T>>, id: T -> string) returns (kept: seq<Option<T>>)
    requires Injective(id)
    ensures kept == Unique(NonNil(entities))
  {
    var seen: set<string> := {};
    kept := [];
    for i := 0 to |entities|
      invariant kept == Unique(NonNil(entities[..i]))
      invariant seen == IdsOf(kept, id)
    {
      hide *;
      var e := entities[i];
      UniqueNonNilNext(entities, i);
      if e.Some? {
        IdTells(kept, e.value, id);
        IdsSnoc(kept, e.value, id);
        if id(e.value) !in seen {
          seen := seen + {id(e.value)};
          kept := kept + [e];
        }
      }
    }
    assert entities[..|entities|] == entities;
  }

  method DeduplicateList<T(==, !new)>(entities: seq<T>) returns (kept: seq<T>)
    ensures kept == Unique(entities)
  {
    var seen: set<T> := {};
    kept := [];
    for i := 0 to |entities|
      invariant kept == Unique(entities[..i])
      invariant forall x :: x in seen <==> x in kept
    {
      UniqueSnoc(entities[..i], entities[i]);
      assert entities[..i + 1] == entities[..i] + [entities[i]];
      if entities[i] !in seen {
        seen := seen + {entities[i]};
        kept := kept + [entities[i]];
      }
    }
    assert entities[..|entities|] == entities;
  }

  method DeduplicateAdditionalGIDs(entities: seq<nat>) returns (additionalGIDs: seq<nat>)
    ensures additionalGIDs == SortNats(Unique(entities))
  {
    var kept := DeduplicateList(entities);
    var gids := NewSlice(kept);
    NatLessIsTotal();
    SortSlice(gids, (x: nat) => x, NatLess);
    SortNatsSorts(kept);
    SortedKeysAgree(gids[..], SortNats(kept), NatLess);
    additionalGIDs := gids[..];
  }

  /** A slice grown by append: a fresh array with the given contents. */
  method NewSlice<T>(contents: seq<T>) returns (a: array<T>)
    ensures fresh(a) && a[..] == contents
  {
    a := new T[|contents|](i requires 0 <= i < |contents| => contents[i]);
  }

  method DedupeTransformEdits(edits: ContainerEdits, ghost v: Edits) returns (r: ContainerEdits)
    requires edits.Holds(v)
    ensures fresh(r.deviceNodes) && fresh(r.mounts) && r.Holds(DedupeEdits(v))
  {
    IdsInjective();
    var gids := DeduplicateAdditionalGIDs(edits.additionalGIDs);
    var nodes := DeduplicateEntities(edits.deviceNodes[..], NodeId);
    var deviceNodes := NewSlice(nodes);
    var env := DeduplicateList(edits.env);
    var hooks := DeduplicateEntities(edits.hooks, HookId);
    var mounted := DeduplicateEntities(edits.mounts[..], MountId);
    var mounts := NewSlice(mounted);
    r := edits.(additionalGIDs := gids, deviceNodes := deviceNodes, env := env, hooks := hooks, mounts := mounts);
  }

  method DedupeDeviceEdits(device: Device, ghost v: DeviceValue) returns (r: Device)
    requires device.Holds(v)
    ensures fresh(r.edits.deviceNodes) && fresh(r.edits.mounts) && r.Holds(DedupeDevice(v))
  {
    var edits := DedupeTransformEdits(device.edits, v.edits);
    r := device.(edits := edits);
  }

  method DedupeDevices(devices: seq<Device>, ghost vs: seq<DeviceValue>, ghost footprint: set<object>)
      returns (updated: seq<Device>, ghost made: set<object>)
    requires HoldAll(devices, vs, footprint)
    ensures fresh(made) && HoldAll(updated, Map(DedupeDevice, vs), made)
  {
    hide DedupeEdits;
    updated, made := [], {};
    for i := 0 to |devices|
      invariant fresh(made) && HoldAll(updated, Map(DedupeDevice, vs[..i]), made)
    {
      assert devices[i].Holds(vs[i]);
      var device := DedupeDeviceEdits(devices[i], vs[i]);
      ghost var more := made + {device.edits.deviceNodes, device.edits.mounts};
      HoldAllSnoc(updated, device, Map(DedupeDevice, vs[..i]), DedupeDevice(vs[i]), made, more);
      MapSnoc(DedupeDevice, vs[..i], vs[i]);
      assert vs[..i + 1] == vs[..i] + [vs[i]];
      updated, made := updated + [device], more;
    }
    assert vs[..|vs|] == vs;
  }

  /** Every list of the result is newly made. */
  method DedupeTransform(spec: Spec?, ghost v: SpecValue, ghost footprint: set<object>)
      returns (ghost made: set<object>)
    requires spec != null ==> spec.Holds(v, footprint)
    modifies spec
    ensures fresh(made) && (spec != null ==> spec.Holds(DedupeSpec(v), made))
  {
    made := {};
    if spec == null { return; }
    var common := DedupeTransformEdits(spec.containerEdits, v.common);
    spec.containerEdits := common;
    var updated, lists := DedupeDevices(spec.devices, v.devices, footprint);
    spec.devices := updated;
    made := lists + {common.deviceNodes, common.mounts};
  }

  // ----- remove -----

  method CollectIds<T(!new)>(entities: seq<Option<T>>, id: T -> string) returns (ids: set<string>)
    requires None !in entities
    ensures ids == IdsOf(entities, id)
  {
    ids := {};
    for i := 0 to |entities|
      invariant ids == IdsOf(entities[..i], id)
    {
      assert entities[..i + 1] == entities[..i] + [entities[i]];
      assert entities[i] in entities;
      ids := ids + {id(entities[i].value)};
    }
    assert entities[..|entities|] == entities;
  }

  ghost function EnvIds(s: seq<string>): set<string> { set x | x in s }

  lemma EntityIdsByKind(e: Edits)
    ensures EntityIds(e) == IdsOf(e.nodes, NodeId) + EnvIds(e.env) + IdsOf(e.hooks, HookId) + IdsOf(e.mounts, MountId)
  {
    hide NodeId, HookId, MountId;
    forall x | x in Entities(e)
      ensures Id(x) in IdsOf(e.nodes, NodeId) + EnvIds(e.env) + IdsOf(e.hooks, HookId) + IdsOf(e.mounts, MountId)
    {
      IdByKind(e, x);
    }
    forall n | n in e.nodes && n.Some? ensures NodeId(n.value) in EntityIds(e) { IdOfMember(NodeEntity(n.value), e); }
    forall s | s in e.env ensures s in EntityIds(e) { IdOfMember(EnvEntity(s), e); }
    forall h | h in e.hooks && h.Some? ensures HookId(h.value) in EntityIds(e) { IdOfMember(HookEntity(h.value), e); }
    forall m | m in e.mounts && m.Some? ensures MountId(m.value) in EntityIds(e) { IdOfMember(MountEntity(m.value), e); }
  }

  lemma IdByKind(e: Edits, x: Entity)
    requires x in Entities(e)
    ensures Id(x) in IdsOf(e.nodes, NodeId) + EnvIds(e.env) + IdsOf(e.hooks, HookId) + IdsOf(e.mounts, MountId)
  {
    hide NodeId, HookId, MountId;
    match x
    case NodeEntity(n) => assert Some(n) in e.nodes; assert NodeId(n) in IdsOf(e.nodes, NodeId);
    case EnvEntity(s) => assert s in EnvIds(e.env);
    case HookEntity(h) => assert Some(h) in e.hooks; assert HookId(h) in IdsOf(e.hooks, HookId);
    case MountEntity(m) => assert Some(m) in e.mounts; assert MountId(m) in IdsOf(e.mounts, MountId);
  }

  /** One id set for all kinds. */
  method GetEntityIds(e: ContainerEdits, ghost v: Edits) returns (ids: set<string>)
    requires e.Holds(v) && v.NoNil()
    ensures ids == EntityIds(v)
  {
    var nodes := CollectIds(e.deviceNodes[..], NodeId);
    var hooks := CollectIds(e.hooks, HookId);
    var mounts := CollectIds(e.mounts[..], MountId);
    EntityIdsByKind(v);
    ids := nodes + (set x | x in e.env) + hooks + mounts;
  }

  method RemoveFromList<T(!new)>(entities: seq<Option<T>>, ids: set<string>, id: T -> string)
      returns (kept: seq<Option<T>>)
    requires None !in entities
    ensures kept == Keep(entities, Outside(ids, id))
  {
    kept := [];
    for i := 0 to |entities|
      invariant kept == Keep(entities[..i], Outside(ids, id))
    {
      KeepSnoc(entities[..i], entities[i], Outside(ids, id));
      assert entities[..i + 1] == entities[..i] + [entities[i]];
      assert entities[i] in entities;
      if id(entities[i].value) !in ids {
        kept := kept + [entities[i]];
      }
    }
    assert entities[..|entities|] == entities;
  }

  method RemoveFromEnv(entities: seq<string>, ids: set<string>) returns (kept: seq<string>)
    ensures kept == Keep(entities, OutsideEnv(ids))
  {
    kept := [];
    for i := 0 to |entities|
      invariant kept == Keep(entities[..i], OutsideEnv(ids))
    {
      KeepSnoc(entities[..i], entities[i], OutsideEnv(ids));
      assert entities[..i + 1] == entities[..i] + [entities[i]];
      if entities[i] !in ids {
        kept := kept + [entities[i]];
      }
    }
    assert entities[..|entities|] == entities;
  }

  method RemoveTransformEdits(ids: set<string>, edits: ContainerEdits, ghost v: Edits) returns (r: ContainerEdits)
    requires edits.Holds(v) && v.NoNil()
    ensures fresh(r.deviceNodes) && fresh(r.mounts) && r.Holds(RemoveEdits(ids, v))
  {
    var nodes := RemoveFromList(edits.deviceNodes[..], ids, NodeId);
    var env := RemoveFromEnv(edits.env, ids);
    var hooks := RemoveFromList(edits.hooks, ids, HookId);
    var mounted := RemoveFromList(edits.mounts[..], ids, MountId);
    var deviceNodes := NewSlice(nodes);
    var mounts := NewSlice(mounted);
    r := edits.(deviceNodes := deviceNodes, env := env, hooks := hooks, mounts := mounts);
  }

  /** The stripped devices are copies that are never written back: only the common edits change. */
  method RemoveTransform(ids: set<string>, spec: Spec?, ghost v: SpecValue, ghost footprint: set<object>)
      returns (ghost made: set<object>)
    requires spec != null ==> spec.Holds(v, footprint) && v.NoNil()
    modifies spec
    ensures fresh(made)
    ensures spec != null ==> spec.Holds(v.(common := RemoveEdits(ids, v.common)), footprint + made)
    ensures spec != null ==> spec.devices == old(spec.devices)
    ensures spec != null ==> spec.containerEdits.deviceNodes in made && spec.containerEdits.mounts in made
  {
    hide RemoveEdits;
    made := {};
    if spec == null { return; }
    for i := 0 to |spec.devices|
      invariant spec.devices == old(spec.devices) && spec.containerEdits == old(spec.containerEdits)
    {
      var device := spec.devices[i];
      assert v.devices[i] in v.devices && device.Holds(v.devices[i]);
      var stripped := RemoveTransformEdits(ids, device.edits, v.devices[i].edits);
      device := device.(edits := stripped);
    }
    var edits := RemoveTransformEdits(ids, spec.containerEdits, v.common);
    spec.containerEdits := edits;
    made := {edits.deviceNodes, edits.mounts};
  }

  // ----- simplify -----

  method SimplifyDevice(ids: set<string>, device: Device, ghost v: DeviceValue)
      returns (r: Device, ghost made: set<object>)
    requires device.Holds(v) && v.edits.NoNil()
    ensures fresh(made) && r.Holds(StripDevice(ids, v))
    ensures r.edits == device.edits || (r.edits.deviceNodes in made && r.edits.mounts in made)
  {
    r := device;
    var deviceAsSpec := new Spec([], device.edits);
    made := RemoveTransform(ids, deviceAsSpec, SpecValue([], v.edits), {device.edits.deviceNodes, device.edits.mounts});
    if !deviceAsSpec.containerEdits.IsEmpty() {
      r := device.(edits := deviceAsSpec.containerEdits);
    }
  }

  method SimplifyDevices(ids: set<string>, devices: seq<Device>, ghost vs: seq<DeviceValue>,
      ghost footprint: set<object>)
      returns (updated: seq<Device>, ghost made: set<object>)
    requires HoldAll(devices, vs, footprint)
    requires forall i :: 0 <= i < |vs| ==> vs[i].edits.NoNil()
    ensures fresh(made) && HoldAll(updated, StripDevices(ids, vs), footprint + made)
  {
    hide StripEdits;
    updated, made := [], {};
    for i := 0 to |devices|
      invariant fresh(made) && HoldAll(updated, StripDevices(ids, vs[..i]), footprint + made)
    {
      assert devices[i].Holds(vs[i]);
      var device, lists := SimplifyDevice(ids, devices[i], vs[i]);
      HoldAllSnoc(updated, device, StripDevices(ids, vs[..i]), StripDevice(ids, vs[i]),
                  footprint + made, footprint + (made + lists));
      assert vs[..i + 1][..i] == vs[..i];
      updated, made := updated + [device], made + lists;
    }
    assert vs[..|vs|] == vs;
  }

  /** Every list of the result is newly made. */
  method SimplifyTransform(spec: Spec?, ghost v: SpecValue, ghost footprint: set<object>)
      returns (ghost made: set<object>)
    requires spec != null ==> spec.Holds(v, footprint)
    modifies spec
    ensures fresh(made) && (spec != null ==> spec.Holds(SimplifySpec(v), made))
  {
    hide DedupeSpec, StripDevices, EntityIds;
    made := {};
    if spec == null { return; }
    made := DedupeTransform(spec, v, footprint);
    ghost var deduped := DedupeSpec(v);
    NoNilAt(v);
    var commonEntityIDs := GetEntityIds(spec.containerEdits, deduped.common);
    var updated, lists := SimplifyDevices(commonEntityIDs, spec.devices, deduped.devices, made);
    spec.devices := updated;
    made := made + lists;
  }

  lemma NoNilAt(v: SpecValue)
    ensures DedupeSpec(v).NoNil()
    ensures forall i :: 0 <= i < |DedupeSpec(v).devices| ==> DedupeSpec(v).devices[i].edits.NoNil()
  {
  }

  // ----- sort -----

  lemma {:induction false} PermuteValues(ds: seq<Device>, vs: seq<DeviceValue>, es: seq<Device>, footprint: set<object>)
      returns (out: seq<DeviceValue>)
    requires HoldAll(ds, vs, footprint) && multiset(es) == multiset(ds)
    ensures HoldAll(es, out, footprint) && multiset(out) == multiset(vs)
    decreases |es|
  {
    if es == [] {
      assert |multiset(ds)| == 0;
      out := [];
    } else {
      assert es[0] in multiset(ds);
      var k :| 0 <= k < |ds| && ds[k] == es[0];
      RemoveOne(es, 0);
      RemoveOne(ds, k);
      HoldWithout(ds, vs, k, footprint);
      var rest := PermuteValues(Without(ds, k), Without(vs, k), Without(es, 0), footprint);
      out := HoldCons(es, rest, vs, k, footprint);
    }
  }

  lemma HoldCons(es: seq<Device>, rest: seq<DeviceValue>, vs: seq<DeviceValue>, k: nat, footprint: set<object>)
      returns (out: seq<DeviceValue>)
    requires es != [] && k < |vs| && HoldAll(Without(es, 0), rest, footprint) && HoldAll([es[0]], [vs[k]], footprint)
    requires multiset(rest) == multiset(Without(vs, k))
    ensures HoldAll(es, out, footprint) && multiset(out) == multiset(vs)
  {
    out := [vs[k]] + rest;
    BackInPlace(vs, k, rest);
    assert es == [es[0]] + Without(es, 0);
    HoldAppend([es[0]], [vs[k]], Without(es, 0), rest, footprint);
  }

  lemma BackInPlace<T>(s: seq<T>, k: nat, rest: seq<T>)
    requires k < |s| && multiset(rest) == multiset(Without(s, k))
    ensures multiset([s[k]] + rest) == multiset(s)
  {
    RemoveOne(s, k);
  }

  lemma HoldAppend(a: seq<Device>, vs: seq<DeviceValue>, b: seq<Device>, ws: seq<DeviceValue>, footprint: set<object>)
    requires HoldAll(a, vs, footprint) && HoldAll(b, ws, footprint)
    ensures HoldAll(a + b, vs + ws, footprint)
  {
  }

  lemma HoldWithout(ds: seq<Device>, vs: seq<DeviceValue>, k: nat, footprint: set<object>)
    requires HoldAll(ds, vs, footprint) && k < |ds|
    ensures HoldAll(Without(ds, k), Without(vs, k), footprint) && HoldAll([ds[k]], [vs[k]], footprint)
  {
  }

  lemma SortedContents(e: ContainerEdits, v: Edits)
    requires e.Contents() == v.(nodes := e.deviceNodes[..], mounts := e.mounts[..])
    requires multiset(e.deviceNodes[..]) == multiset(v.nodes) && SortedBy(e.deviceNodes[..], NodePath, PathLess)
    requires multiset(e.mounts[..]) == multiset(v.mounts) && SortedBy(e.mounts[..], MountPath, PathLess)
    ensures SortedEdits(v, e.Contents())
  {
  }

  /** Sorts nodes and mounts where they are; edits may share arrays. */
  method SortEdits(all: seq<ContainerEdits>, ghost vs: seq<Edits>, ghost footprint: set<object>)
    requires |all| == |vs| && forall k :: 0 <= k < |all| ==> all[k].Holds(vs[k])
    requires forall k :: 0 <= k < |all| ==> all[k].deviceNodes in footprint && all[k].mounts in footprint
    modifies footprint
    ensures forall k :: 0 <= k < |all| ==> SortedEdits(vs[k], all[k].Contents())
  {
    PathLessIsTotal();
    var nodes := Map((e: ContainerEdits) => e.deviceNodes, all);
    var mounts := Map((e: ContainerEdits) => e.mounts, all);
    SortSlices(nodes, NodePath, PathLess);
    assert forall k :: 0 <= k < |all| ==> all[k].mounts[..] == vs[k].mounts;
    SortSlices(mounts, MountPath, PathLess);
    forall k | 0 <= k < |all| ensures SortedEdits(vs[k], all[k].Contents()) {
      assert nodes[k] == all[k].deviceNodes && mounts[k] == all[k].mounts;
      SortedContents(all[k], vs[k]);
    }
  }

  lemma SortedValues(devices: seq<Device>, vs: seq<DeviceValue>, footprint: set<object>) returns (mid: seq<DeviceValue>)
    requires |devices| == |vs|
    requires forall k :: 0 <= k < |vs| ==> devices[k].edits.deviceNodes in footprint && devices[k].edits.mounts in footprint
    requires forall k :: 0 <= k < |vs| ==> devices[k].name == vs[k].name && devices[k].annotations == vs[k].annotations
    requires forall k :: 0 <= k < |vs| ==> SortedEdits(vs[k].edits, devices[k].edits.Contents())
    ensures HoldAll(devices, mid, footprint) && SortedEach(vs, mid)
  {
    mid := seq(|vs|, k requires 0 <= k < |vs| reads footprint => vs[k].(edits := devices[k].edits.Contents()));
  }

  function NameOf(d: Device): string { d.name }

  method SortDevices(devices: seq<Device>, ghost vs: seq<DeviceValue>, ghost footprint: set<object>)
      returns (sorted: seq<Device>, ghost out: seq<DeviceValue>)
    requires HoldAll(devices, vs, footprint)
    ensures multiset(sorted) == multiset(devices) && SortedBy(sorted, NameOf, Less)
    ensures HoldAll(sorted, out, footprint) && multiset(out) == multiset(vs) && SortedBy(out, DeviceName, Less)
  {
    var slice := NewSlice(devices);
    LessIsTotal();
    SortSlice(slice, NameOf, Less);
    sorted := slice[..];
    out := PermuteValues(devices, vs, sorted, footprint);
    assert forall i :: 0 <= i < |out| ==> sorted[i].Holds(out[i]);
  }

  function EditsOf(d: Device): ContainerEdits { d.edits }

  function EditsOfValue(d: DeviceValue): Edits { d.edits }

  lemma HoldEach(common: ContainerEdits, devices: seq<Device>, v: SpecValue, footprint: set<object>)
    requires HoldAll(devices, v.devices, footprint)
    requires common.deviceNodes in footprint && common.mounts in footprint && common.Holds(v.common)
    ensures var all, vs := [common] + Map(EditsOf, devices), [v.common] + Map(EditsOfValue, v.devices);
            && |all| == |vs| && (forall k :: 0 <= k < |all| ==> all[k].Holds(vs[k]))
            && (forall k :: 0 <= k < |all| ==> all[k].deviceNodes in footprint && all[k].mounts in footprint)
  {
    var all, vs := [common] + Map(EditsOf, devices), [v.common] + Map(EditsOfValue, v.devices);
    forall k | 0 <= k < |all|
      ensures all[k].Holds(vs[k]) && all[k].deviceNodes in footprint && all[k].mounts in footprint
    {
      if k > 0 { assert devices[k - 1].Holds(v.devices[k - 1]); }
    }
  }

  method SortSpecEdits(common: ContainerEdits, devices: seq<Device>, ghost v: SpecValue, ghost footprint: set<object>)
      returns (ghost mid: seq<DeviceValue>)
    requires HoldAll(devices, v.devices, footprint)
    requires common.deviceNodes in footprint && common.mounts in footprint && common.Holds(v.common)
    modifies footprint
    ensures SortedEdits(v.common, common.Contents())
    ensures HoldAll(devices, mid, footprint) && SortedEach(v.devices, mid)
  {
    hide PathLess, SortedEdits;
    var all := [common] + Map(EditsOf, devices);
    ghost var vs := [v.common] + Map(EditsOfValue, v.devices);
    HoldEach(common, devices, v, footprint);
    assert forall k :: 0 <= k < |v.devices| ==> devices[k].Holds(v.devices[k]);
    SortEdits(all, vs, footprint);
    assert all[0] == common && vs[0] == v.common;
    forall k | 0 <= k < |v.devices| ensures SortedEdits(v.devices[k].edits, devices[k].edits.Contents()) {
      assert all[k + 1] == devices[k].edits && vs[k + 1] == v.devices[k].edits;
    }
    mid := SortedValues(devices, v.devices, footprint);
  }

  /** Comparing a nil entry would crash: the lists must be free of them. */
  method SorterTransform(spec: Spec?, ghost v: SpecValue, ghost footprint: set<object>) returns (ghost w: SpecValue)
    requires spec != null ==> spec.Holds(v, footprint) && v.NoNil() && spec !in footprint
    modifies spec, footprint
    ensures spec != null ==> spec.Holds(w, footprint) && SortedSpec(v, w)
  {
    w := v;
    if spec == null { return; }
    ghost var mid := SortSpecEdits(spec.containerEdits, spec.devices, v, footprint);
    var sorted, out := SortDevices(spec.devices, mid, footprint);
    spec.devices := sorted;
    w := SpecValue(out, spec.containerEdits.Contents());
    assert SortedDevices(v.devices, mid, w.devices);
  }
}
