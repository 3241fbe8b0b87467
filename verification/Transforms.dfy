/** What each CDI transformer computes, on values. */
module Transforms {
  import opened Wrappers
  import opened Sequences
  import opened Strings
  import opened Sorting
  import opened CdiSpec

  // ----- deduplicate -----

  function IsPointer<T>(): Option<T> -> bool { (x: Option<T>) => x.Some? }

  /** The entries of a list of pointers that are not nil. */
  function NonNil<T(!new)>(s: seq<Option<T>>): (r: seq<Option<T>>)
    ensures forall x :: x in r <==> x in s && x.Some?
  {
    Keep(s, IsPointer())
  }

  /** The ascending arrangement of a list of numbers. */
  function SortNats(s: seq<nat>): seq<nat> { Arrange(s, (n: nat) => n, NatLess) }

  lemma SortNatsSorts(s: seq<nat>)
    ensures Ordered(SortNats(s), NatLess) && multiset(SortNats(s)) == multiset(s)
  {
    NatLessIsTotal();
    ArrangeSorts(s, (n: nat) => n, NatLess);
  }

  function DedupeEdits(e: Edits): Edits {
    e.(gids := SortNats(Unique(e.gids)),
       nodes := Unique(NonNil(e.nodes)),
       env := Unique(e.env),
       hooks := Unique(NonNil(e.hooks)),
       mounts := Unique(NonNil(e.mounts)))
  }

  function DedupeDevice(d: DeviceValue): DeviceValue { d.(edits := DedupeEdits(d.edits)) }

  function DedupeSpec(v: SpecValue): SpecValue {
    SpecValue(Map(DedupeDevice, v.devices), DedupeEdits(v.common))
  }

  // ----- remove -----

  ghost function EntityIds(e: Edits): set<string> { set x | x in Entities(e) :: Id(x) }

  function Outside<T>(ids: set<string>, id: T -> string): Option<T> -> bool {
    (x: Option<T>) => x.Some? && id(x.value) !in ids
  }

  function OutsideEnv(ids: set<string>): string -> bool { (x: string) => x !in ids }

  function RemoveEdits(ids: set<string>, e: Edits): Edits {
    e.(nodes := Keep(e.nodes, Outside(ids, NodeId)),
       env := Keep(e.env, OutsideEnv(ids)),
       hooks := Keep(e.hooks, Outside(ids, HookId)),
       mounts := Keep(e.mounts, Outside(ids, MountId)))
  }

  // ----- simplify -----

  /** A device left with nothing keeps its edits: empty devices are invalid. */
  function StripEdits(ids: set<string>, e: Edits): Edits {
    var rest := RemoveEdits(ids, e);
    if rest.IsEmpty() then e else rest
  }

  ghost function SimplifyEdits(common: Edits, e: Edits): Edits { StripEdits(EntityIds(common), e) }

  function StripDevice(ids: set<string>, d: DeviceValue): DeviceValue { d.(edits := StripEdits(ids, d.edits)) }

  function StripDevices(ids: set<string>, devices: seq<DeviceValue>): (r: seq<DeviceValue>)
    ensures |r| == |devices|
  {
    if devices == [] then []
    else StripDevices(ids, devices[..|devices| - 1]) + [StripDevice(ids, devices[|devices| - 1])]
  }

  lemma {:induction false} StripDevicesAt(ids: set<string>, devices: seq<DeviceValue>, i: nat)
    requires i < |devices|
    ensures StripDevices(ids, devices)[i] == StripDevice(ids, devices[i])
  {
    if i < |devices| - 1 { StripDevicesAt(ids, devices[..|devices| - 1], i); }
  }

  ghost function SimplifySpec(v: SpecValue): SpecValue {
    var d := DedupeSpec(v);
    SpecValue(StripDevices(EntityIds(d.common), d.devices), d.common)
  }

  // ----- sort -----

  function NodePath(n: Option<DeviceNode>): string { if n.Some? then n.value.path else "" }

  function MountPath(m: Option<Mount>): string { if m.Some? then m.value.containerPath else "" }

  function DeviceName(d: DeviceValue): string { d.name }

  /** `s` rearranges `e`: device nodes and mounts by container path, the rest in place. */
  ghost predicate SortedEdits(e: Edits, s: Edits) {
    && s == e.(nodes := s.nodes, mounts := s.mounts)
    && multiset(s.nodes) == multiset(e.nodes) && SortedBy(s.nodes, NodePath, PathLess)
    && multiset(s.mounts) == multiset(e.mounts) && SortedBy(s.mounts, MountPath, PathLess)
  }

  ghost predicate SortedEach(ds: seq<DeviceValue>, mid: seq<DeviceValue>) {
    && |mid| == |ds|
    && forall i :: 0 <= i < |ds| ==> mid[i] == ds[i].(edits := mid[i].edits) && SortedEdits(ds[i].edits, mid[i].edits)
  }

  ghost predicate SortedDevices(ds: seq<DeviceValue>, mid: seq<DeviceValue>, out: seq<DeviceValue>) {
    SortedEach(ds, mid) && multiset(out) == multiset(mid) && SortedBy(out, DeviceName, Less)
  }

  /** What the sorter may return; ties leave it some freedom. */
  ghost predicate SortedSpec(v: SpecValue, w: SpecValue) {
    SortedEdits(v.common, w.common) && exists mid :: SortedDevices(v.devices, mid, w.devices)
  }

  // ----- the pipeline -----

  datatype Transformer = Dedupe | Simplify | Sort

  ghost predicate Step(t: Transformer, v: SpecValue, w: SpecValue) {
    match t
    case Dedupe => w == DedupeSpec(v)
    case Simplify => w == SimplifySpec(v)
    case Sort => SortedSpec(v, w)
  }

  /** Transformers run one after the other, each on its predecessor's result. */
  ghost predicate Runs(ts: seq<Transformer>, v: SpecValue, w: SpecValue) {
    if ts == [] then w == v
    else
      var init, last := ts[..|ts| - 1], ts[|ts| - 1];
      exists u {:trigger Step(last, u, w)} :: Runs(init, v, u) && Step(last, u, w)
  }

  const SIMPLIFIER: seq<Transformer> := [Dedupe, Simplify, Sort]

  /** What the simplifier may turn `v` into. */
  ghost predicate Simplified(v: SpecValue, w: SpecValue) {
    SortedSpec(SimplifySpec(DedupeSpec(v)), w)
  }

  lemma {:induction false} SimplifierRuns(v: SpecValue, w: SpecValue)
    ensures Runs(SIMPLIFIER, v, w) <==> Simplified(v, w)
  {
    var two := [Dedupe, Simplify];
    forall x ensures Runs(two, v, x) <==> x == SimplifySpec(DedupeSpec(v)) { TwoRuns(v, x); }
    assert two + [Sort] == SIMPLIFIER;
    RunsSnoc(two, Sort, v, SimplifySpec(DedupeSpec(v)), w);
  }

  lemma {:induction false} TwoRuns(v: SpecValue, x: SpecValue)
    ensures Runs([Dedupe, Simplify], v, x) <==> x == SimplifySpec(DedupeSpec(v))
  {
    var u := DedupeSpec(v);
    forall y ensures Runs([Dedupe], v, y) <==> y == u {
      assert [] + [Dedupe] == [Dedupe];
      RunsSnoc([], Dedupe, v, v, y);
    }
    assert [Dedupe] + [Simplify] == [Dedupe, Simplify];
    RunsSnoc([Dedupe], Simplify, v, u, x);
  }

  /** One more step, after a prefix with one possible result. */
  lemma {:induction false} RunsSnoc(ts: seq<Transformer>, t: Transformer, v: SpecValue, u: SpecValue, w: SpecValue)
    requires forall x :: Runs(ts, v, x) <==> x == u
    ensures Runs(ts + [t], v, w) <==> Step(t, u, w)
  {
    var all := ts + [t];
    assert all[..|all| - 1] == ts && all[|all| - 1] == t;
    assert Step(t, u, w) && Runs(ts, v, u) ==> Runs(all, v, w);
  }

  // ----- merged device -----

  function AppendEdits(e: Edits, o: Edits): Edits {
    Edits(e.gids + o.gids, e.nodes + o.nodes, e.env + o.env, e.hooks + o.hooks, e.mounts + o.mounts,
          e.netDevices + o.netDevices, if o.intelRdt.Some? then o.intelRdt else e.intelRdt)
  }

  function MergeEdits(devices: seq<DeviceValue>): Edits {
    if devices == [] then EMPTY_EDITS
    else AppendEdits(MergeEdits(devices[..|devices| - 1]), devices[|devices| - 1].edits)
  }

  lemma AppendIsAssociative(a: Edits, b: Edits, c: Edits)
    ensures AppendEdits(AppendEdits(a, b), c) == AppendEdits(a, AppendEdits(b, c))
    ensures AppendEdits(EMPTY_EDITS, a) == AppendEdits(a, EMPTY_EDITS) == a
  {
  }

  lemma {:induction false} MergeCons(d: DeviceValue, rest: seq<DeviceValue>)
    ensures MergeEdits([d] + rest) == AppendEdits(d.edits, MergeEdits(rest))
  {
    hide AppendEdits;
    var all := [d] + rest;
    if rest == [] {
      assert all[..0] == [];
      AppendIsAssociative(d.edits, d.edits, d.edits);
    } else {
      var n := |rest| - 1;
      MergeCons(d, rest[..n]);
      assert all[..|all| - 1] == [d] + rest[..n];
      AppendIsAssociative(d.edits, MergeEdits(rest[..n]), rest[n].edits);
    }
  }

  /** Every list of the merged edits is the lists of the devices in their order; the last RDT setting counts. */
  lemma {:induction false} MergedInOrder(d: DeviceValue, rest: seq<DeviceValue>)
    ensures MergeEdits([]) == Edits([], [], [], [], [], [], None)
    ensures var m, e, r := MergeEdits([d] + rest), d.edits, MergeEdits(rest);
      && m.gids == e.gids + r.gids && m.nodes == e.nodes + r.nodes && m.env == e.env + r.env
      && m.hooks == e.hooks + r.hooks && m.mounts == e.mounts + r.mounts && m.netDevices == e.netDevices + r.netDevices
      && m.intelRdt == if r.intelRdt == None then e.intelRdt else r.intelRdt
  {
    MergeCons(d, rest);
  }

  ghost predicate HasDevice(v: SpecValue, name: string) { exists d :: d in v.devices && d.name == name }

  function AddMerged(v: SpecValue, name: string): SpecValue {
    v.(devices := v.devices + [DeviceValue(name, map[], MergeEdits(v.devices))])
  }
}
