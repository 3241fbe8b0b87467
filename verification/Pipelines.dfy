/** Transformers run in sequence, and the merged device that ends in such a run. */
module Pipelines {
  import opened Wrappers
  import opened CdiSpec
  import opened Transforms
  import opened SimplifierTheory
  import opened Transformers

  lemma StepsStayFreeOfNil(t: Transformer, v: SpecValue, w: SpecValue)
    requires Step(t, v, w) && v.NoNil()
    ensures w.NoNil()
  {
    match t
    case Dedupe =>
    case Simplify => SimplifyFreesOfNil(v);
    case Sort => SortStaysFreeOfNil(v, w);
  }

  lemma SimplifyFreesOfNil(v: SpecValue)
    ensures SimplifySpec(v).NoNil()
  {
    var d := DedupeSpec(v);
    var ids := EntityIds(d.common);
    forall x | x in SimplifySpec(v).devices ensures x.edits.NoNil() {
      var i :| 0 <= i < |d.devices| && StripDevices(ids, d.devices)[i] == x;
      StripDevicesAt(ids, d.devices, i);
      NoNilAt(v);
    }
  }

  lemma SortStaysFreeOfNil(v: SpecValue, w: SpecValue)
    requires SortedSpec(v, w) && v.NoNil()
    ensures w.NoNil()
  {
    SortedKeepsEntities(v.common, w.common);
    var mid: seq<DeviceValue> :| SortedDevices(v.devices, mid, w.devices);
    SameMembers(w.devices, mid);
    forall x | x in w.devices ensures x.edits.NoNil() {
      var i :| 0 <= i < |mid| && mid[i] == x;
      assert v.devices[i] in v.devices;
      SortedKeepsEntities(v.devices[i].edits, mid[i].edits);
    }
  }

  /** A sort that comes first works on the caller's own lists. */
  predicate SortsFirst(ts: seq<Transformer>) { ts != [] && ts[0].Sort? }

  /** One transformer. Only a sort writes to lists that exist already. */
  method TransformOne(t: Transformer, spec: Spec, ghost v: SpecValue, ghost footprint: set<object>)
      returns (ghost w: SpecValue, ghost footprint': set<object>)
    requires spec.Holds(v, footprint) && spec !in footprint
    requires t.Sort? ==> v.NoNil()
    modifies spec, if t.Sort? then footprint else {}
    ensures spec.Holds(w, footprint') && spec !in footprint' && Step(t, v, w)
    ensures t.Sort? ==> footprint' == footprint
    ensures !t.Sort? ==> fresh(footprint') && w.NoNil()
  {
    match t
    case Dedupe =>
      footprint' := DedupeTransform(spec, v, footprint);
      w := DedupeSpec(v);
      DedupeLeavesNoNil(v);
    case Simplify =>
      footprint' := SimplifyTransform(spec, v, footprint);
      w := SimplifySpec(v);
      SimplifyFreesOfNil(v);
    case Sort =>
      w := SorterTransform(spec, v, footprint);
      footprint' := footprint;
  }

  /** `writable` says which lists of the caller may be sorted where they are. */
  method MergeTransform(ts: seq<Transformer>, spec: Spec?, ghost v: SpecValue, ghost footprint: set<object>,
      ghost writable: set<object>)
      returns (ghost w: SpecValue, ghost made: set<object>)
    requires spec != null ==> spec.Holds(v, footprint) && spec !in footprint
    requires spec != null && SortsFirst(ts) ==> v.NoNil() && footprint <= writable
    modifies spec, writable
    ensures spec != null ==> spec.Holds(w, made) && spec !in made && Runs(ts, v, w)
    ensures spec != null && ts != [] ==> fresh(made - writable)
  {
    hide DedupeSpec, SimplifySpec, SortedSpec;
    w, made := v, footprint;
    if spec == null { return; }
    for i := 0 to |ts|
      invariant spec.Holds(w, made) && spec !in made && Runs(ts[..i], v, w)
      invariant i == 0 ==> w == v && made == footprint
      invariant i > 0 ==> fresh(made - writable) && w.NoNil()
    {
      ghost var u := w;
      assert i == 0 && ts[i].Sort? ==> SortsFirst(ts);
      w, made := TransformOne(ts[i], spec, u, made);
      if ts[i].Sort? { StepsStayFreeOfNil(ts[i], u, w); }
      assert ts[..i + 1][..i] == ts[..i] && ts[..i + 1][i] == ts[i];
      assert Step(ts[i], u, w);
    }
    assert ts[..|ts|] == ts;
  }

  /**
   * The simplifier. Whatever arrays the devices share on entry, the outcome depends
   * on their contents only, and none of those arrays is written.
   */
  method SimplifierTransform(spec: Spec?, ghost v: SpecValue, ghost footprint: set<object>)
      returns (ghost w: SpecValue, ghost made: set<object>)
    requires spec != null ==> spec.Holds(v, footprint) && spec !in footprint
    modifies spec
    ensures spec != null ==> spec.Holds(w, made) && Simplified(v, w) && fresh(made)
  {
    w, made := MergeTransform(SIMPLIFIER, spec, v, footprint, {});
    SimplifierRuns(v, w);
  }

  // ----- the merged device -----

  /** A device combining all edits, unless the name is taken. */
  method MergeDeviceSpecs(devices: seq<Device>, name: string, ghost vs: seq<DeviceValue>, ghost footprint: set<object>)
      returns (merged: Option<Device>)
    requires HoldAll(devices, vs, footprint)
    ensures merged.None? <==> exists d :: d in vs && d.name == name
    ensures merged.Some? ==> merged.value.Holds(DeviceValue(name, map[], MergeEdits(vs)))
    ensures merged.Some? ==> fresh(merged.value.edits.deviceNodes) && fresh(merged.value.edits.mounts)
  {
    for i := 0 to |devices|
      invariant forall k :: 0 <= k < i ==> vs[k].name != name
    {
      assert devices[i].Holds(vs[i]);
      if devices[i].name == name {
        assert vs[i] in vs;
        return None;
      }
    }
    var edits := EMPTY_EDITS;
    for i := 0 to |devices|
      invariant edits == MergeEdits(vs[..i])
    {
      assert devices[i].Holds(vs[i]);
      assert vs[..i + 1][..i] == vs[..i];
      edits := AppendEdits(edits, devices[i].edits.Contents());
    }
    assert vs[..|vs|] == vs;
    var deviceNodes := NewSlice(edits.nodes);
    var mounts := NewSlice(edits.mounts);
    merged := Some(Device(name, map[],
      ContainerEdits(edits.gids, deviceNodes, edits.env, edits.hooks, mounts, edits.netDevices, edits.intelRdt)));
  }

  /** Adds the merged device and simplifies; a taken name leaves the specification alone. */
  method MergedDeviceTransform(name: string, skipIfExists: bool, spec: Spec?, ghost v: SpecValue,
      ghost footprint: set<object>)
      returns (r: Result<()>, ghost w: SpecValue, ghost made: set<object>)
    requires spec != null ==> spec.Holds(v, footprint) && spec !in footprint
    modifies spec
    ensures spec == null ==> r.Ok?
    ensures spec != null && HasDevice(v, name) ==>
              spec.devices == old(spec.devices) && spec.containerEdits == old(spec.containerEdits) && r.Ok? == skipIfExists
    ensures spec != null && !HasDevice(v, name) ==>
              r.Ok? && spec.Holds(w, made) && fresh(made) && Simplified(AddMerged(v, name), w)
  {
    hide MergeEdits, Simplified;
    w, made := v, footprint;
    if spec == null { return Ok(()), w, made; }
    var merged := MergeDeviceSpecs(spec.devices, name, v.devices, footprint);
    if merged.None? {
      if skipIfExists { return Ok(()), w, made; }
      return Err("device already exists: " + name), w, made;
    }
    ghost var more := footprint + {merged.value.edits.deviceNodes, merged.value.edits.mounts};
    HoldAllSnoc(spec.devices, merged.value, v.devices, DeviceValue(name, map[], MergeEdits(v.devices)), footprint, more);
    spec.devices := spec.devices + [merged.value];
    w, made := SimplifierTransform(spec, AddMerged(v, name), more);
    r := Ok(());
  }
}
