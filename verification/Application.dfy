/** Applying the edits of a specification to a container: entries overwrite by variable name or by path. */
module Application {
  import opened Wrappers
  import opened Sequences
  import opened Strings
  import opened CdiSpec
  import opened Transforms
  import opened SimplifierTheory
  import opened Overwrites

  /** The variable an env entry sets: the text before its first '='. */
  function Name(entry: string): string {
    if entry == "" || entry[0] == '=' then "" else [entry[0]] + Name(entry[1..])
  }

  /** The entry is the variable `n` alone or followed by '=' and a value. */
  ghost predicate Sets(entry: string, n: string) { entry == n || n + "=" <= entry }

  lemma {:induction false} NameIs(entry: string, n: string)
    requires '=' !in n
    ensures Name(entry) == n <==> Sets(entry, n)
    ensures '=' !in Name(entry)
  {
    if entry == "" || entry[0] == '=' {
      assert n != "" ==> n[0] in n && (n + "=")[0] == n[0];
    } else if n == "" {
      NameIs(entry[1..], "");
      assert (n + "=")[0] == '=';
    } else {
      NameIs(entry[1..], n[1..]);
      assert entry == [entry[0]] + entry[1..] && n == [n[0]] + n[1..];
      assert n + "=" == [n[0]] + (n[1..] + "=");
    }
  }

  /** A variable is set by one name only. */
  lemma SetsOne(entry: string, m: string, n: string)
    requires '=' !in m && '=' !in n && Sets(entry, m) && Sets(entry, n)
    ensures m == n
  {
    NameIs(entry, m);
    NameIs(entry, n);
  }

  function EnvOf(e: Edits): seq<string> { e.env }

  function NodesOf(e: Edits): seq<Option<DeviceNode>> { NonNil(e.nodes) }

  function MountsOf(e: Edits): seq<Option<Mount>> { NonNil(e.mounts) }

  function DeviceEntries<T>(give: Edits -> seq<T>): DeviceValue -> seq<T> { (d: DeviceValue) => give(d.edits) }

  /** What the devices in their order, and then the common edits, make of a table. */
  function Modified<T>(key: T -> string, give: Edits -> seq<T>, v: SpecValue, table: Table<T>): Table<T> {
    Apply(key, ApplyAll(key, table, Map(DeviceEntries(give), v.devices)), give(v.common))
  }

  /** What a container specification holds: env entries by name, device nodes and mounts by container path. */
  datatype Container = Container(env: Table<string>, devices: Table<Option<DeviceNode>>, mounts: Table<Option<Mount>>)

  function Edited(c: Container, e: Edits): Container {
    Container(Apply(Name, c.env, EnvOf(e)), Apply(NodePath, c.devices, NodesOf(e)), Apply(MountPath, c.mounts, MountsOf(e)))
  }

  function EditedAll(c: Container, devices: seq<DeviceValue>): Container {
    if devices == [] then c
    else Edited(EditedAll(c, devices[..|devices| - 1]), devices[|devices| - 1].edits)
  }

  /** The effects on env entries, device nodes and mounts are independent of each other. */
  lemma {:induction false} EditedAllIs(c: Container, devices: seq<DeviceValue>)
    ensures EditedAll(c, devices) == Container(
      ApplyAll(Name, c.env, Map(DeviceEntries(EnvOf), devices)),
      ApplyAll(NodePath, c.devices, Map(DeviceEntries(NodesOf), devices)),
      ApplyAll(MountPath, c.mounts, Map(DeviceEntries(MountsOf), devices)))
  {
    hide Apply, NodesOf, MountsOf, Map;
    if devices != [] {
      var n := |devices| - 1;
      EditedAllIs(c, devices[..n]);
      MapPrefix(DeviceEntries(EnvOf), devices, n);
      MapPrefix(DeviceEntries(NodesOf), devices, n);
      MapPrefix(DeviceEntries(MountsOf), devices, n);
    }
  }

  // ----- what overwriting means, entry by entry -----

  ghost predicate LastSetting(entries: seq<string>, n: string, i: nat) {
    i < |entries| && Sets(entries[i], n) && forall j :: i < j < |entries| ==> !Sets(entries[j], n)
  }

  /** Each variable has the last entry that sets it; all others stay as they were. */
  ghost predicate EnvOverwritten(before: Table<string>, entries: seq<string>, after: Table<string>) {
    && (forall n: string, i: nat :: '=' !in n && LastSetting(entries, n, i) ==> Lookup(after, n) == Some(entries[i]))
    && forall n: string :: '=' in n || (forall e :: e in entries ==> !Sets(e, n)) ==> Lookup(after, n) == Lookup(before, n)
  }

  ghost predicate LastNodeAt(nodes: seq<Option<DeviceNode>>, path: string, i: nat) {
    && i < |nodes| && nodes[i].Some? && nodes[i].value.path == path
    && forall j :: i < j < |nodes| && nodes[j].Some? ==> nodes[j].value.path != path
  }

  /** Each path has the last device node listed with it; all others stay as they were. */
  ghost predicate NodesOverwritten(before: Table<Option<DeviceNode>>, nodes: seq<Option<DeviceNode>>,
      after: Table<Option<DeviceNode>>)
  {
    && (forall path: string, i: nat :: LastNodeAt(nodes, path, i) ==> Lookup(after, path) == Some(nodes[i]))
    && forall path: string :: (forall n :: n in nodes && n.Some? ==> n.value.path != path) ==>
         Lookup(after, path) == Lookup(before, path)
  }

  ghost predicate LastMountAt(mounts: seq<Option<Mount>>, path: string, i: nat) {
    && i < |mounts| && mounts[i].Some? && mounts[i].value.containerPath == path
    && forall j :: i < j < |mounts| && mounts[j].Some? ==> mounts[j].value.containerPath != path
  }

  /** Each container path has the last mount listed with it; all others stay as they were. */
  ghost predicate MountsOverwritten(before: Table<Option<Mount>>, mounts: seq<Option<Mount>>, after: Table<Option<Mount>>) {
    && (forall path: string, i: nat :: LastMountAt(mounts, path, i) ==> Lookup(after, path) == Some(mounts[i]))
    && forall path: string :: (forall m :: m in mounts && m.Some? ==> m.value.containerPath != path) ==>
         Lookup(after, path) == Lookup(before, path)
  }

  /** Every entry stands under the name of the variable it sets. */
  ghost predicate Keyed(table: Table<string>) { forall n :: n in table ==> '=' !in n && Sets(table[n], n) }

  lemma EnvIsOverwritten(table: Table<string>, entries: seq<string>)
    ensures EnvOverwritten(table, entries, Apply(Name, table, entries))
  {
    hide Apply, Name, Sets;
    var after := Apply(Name, table, entries);
    forall n: string, i: nat | '=' !in n && LastSetting(entries, n, i) ensures Lookup(after, n) == Some(entries[i]) {
      forall j | 0 <= j < |entries| ensures Name(entries[j]) == n <==> Sets(entries[j], n) { NameIs(entries[j], n); }
      ApplyLast(Name, table, entries, i);
    }
    forall n: string | '=' in n || (forall e :: e in entries ==> !Sets(e, n)) ensures Lookup(after, n) == Lookup(table, n) {
      forall e | e in entries ensures Name(e) != n {
        if '=' in n { NameIs(e, ""); } else { NameIs(e, n); }
      }
      ApplyElsewhere(Name, table, entries, n);
    }
  }

  lemma NodesAreOverwritten(table: Table<Option<DeviceNode>>, nodes: seq<Option<DeviceNode>>)
    requires None !in nodes
    ensures NodesOverwritten(table, nodes, Apply(NodePath, table, nodes))
  {
    hide Apply;
    var after := Apply(NodePath, table, nodes);
    forall path: string, i: nat | LastNodeAt(nodes, path, i) ensures Lookup(after, path) == Some(nodes[i]) {
      ApplyLast(NodePath, table, nodes, i);
    }
    forall path: string | forall n :: n in nodes && n.Some? ==> n.value.path != path
      ensures Lookup(after, path) == Lookup(table, path)
    {
      ApplyElsewhere(NodePath, table, nodes, path);
    }
  }

  lemma MountsAreOverwritten(table: Table<Option<Mount>>, mounts: seq<Option<Mount>>)
    requires None !in mounts
    ensures MountsOverwritten(table, mounts, Apply(MountPath, table, mounts))
  {
    hide Apply;
    var after := Apply(MountPath, table, mounts);
    forall path: string, i: nat | LastMountAt(mounts, path, i) ensures Lookup(after, path) == Some(mounts[i]) {
      ApplyLast(MountPath, table, mounts, i);
    }
    forall path: string | forall m :: m in mounts && m.Some? ==> m.value.containerPath != path
      ensures Lookup(after, path) == Lookup(table, path)
    {
      ApplyElsewhere(MountPath, table, mounts, path);
    }
  }

  lemma ApplyLast<T(!new)>(key: T -> string, table: Table<T>, entries: seq<T>, i: nat)
    requires i < |entries| && forall j :: i < j < |entries| ==> key(entries[j]) != key(entries[i])
    ensures Lookup(Apply(key, table, entries), key(entries[i])) == Some(entries[i])
  {
    hide Apply, LastOf;
    var k := key(entries[i]);
    ApplyLookup(key, table, entries, k);
    var l := LastIndex(key, entries, k);
  }

  lemma ApplyElsewhere<T(!new)>(key: T -> string, table: Table<T>, entries: seq<T>, k: string)
    requires forall e :: e in entries ==> key(e) != k
    ensures Lookup(Apply(key, table, entries), k) == Lookup(table, k)
  {
    ApplyLookup(key, table, entries, k);
  }

  /** A keyed table stays keyed, and holds nothing else for a variable than the last entry that sets it. */
  lemma KeyedStays(before: Table<string>, entries: seq<string>, after: Table<string>)
    requires Keyed(before) && EnvOverwritten(before, entries, after)
    ensures Keyed(after)
    ensures forall n: string, i: nat, m :: '=' !in n && LastSetting(entries, n, i) && m in after && Sets(after[m], n) ==>
      m == n && after[m] == entries[i]
  {
    hide Sets;
    forall n | n in after ensures '=' !in n && Sets(after[n], n) {
      assert Lookup(after, n) == Some(after[n]);
      if '=' in n || forall e :: e in entries ==> !Sets(e, n) {
        assert Lookup(before, n) == Some(after[n]);
      } else {
        var i := LastSettingOf(entries, n);
      }
    }
    forall n: string, i: nat, m | '=' !in n && LastSetting(entries, n, i) && m in after && Sets(after[m], n)
      ensures m == n && after[m] == entries[i]
    {
      SetsOne(after[m], m, n);
      assert Lookup(after, n) == Some(entries[i]);
    }
  }

  lemma {:induction false} LastSettingOf(entries: seq<string>, n: string) returns (i: nat)
    requires exists e :: e in entries && Sets(e, n)
    ensures LastSetting(entries, n, i)
  {
    hide Sets;
    var k := |entries| - 1;
    if Sets(entries[k], n) {
      i := k;
    } else {
      var e :| e in entries && Sets(e, n);
      assert e in entries[..k];
      i := LastSettingOf(entries[..k], n);
    }
  }

  /** The env entries of the devices in order, then those of the common edits. */
  function EnvLists(v: SpecValue): seq<seq<string>> {
    seq(|v.devices|, i requires 0 <= i < |v.devices| => v.devices[i].edits.env) + [v.common.env]
  }

  function NodeLists(v: SpecValue): seq<seq<Option<DeviceNode>>> {
    seq(|v.devices|, i requires 0 <= i < |v.devices| => v.devices[i].edits.nodes) + [v.common.nodes]
  }

  function MountLists(v: SpecValue): seq<seq<Option<Mount>>> {
    seq(|v.devices|, i requires 0 <= i < |v.devices| => v.devices[i].edits.mounts) + [v.common.mounts]
  }

  lemma ModifiedIsFlat<T>(key: T -> string, give: Edits -> seq<T>, v: SpecValue, table: Table<T>, lists: seq<seq<T>>)
    requires lists == Map(DeviceEntries(give), v.devices) + [give(v.common)]
    ensures Modified(key, give, v, table) == Apply(key, table, Flatten(lists))
  {
    hide Apply;
    var each := Map(DeviceEntries(give), v.devices);
    assert lists[..|lists| - 1] == each;
    ApplyAllIsFlat(key, table, lists);
  }

  lemma ModifiedEnv(v: SpecValue, table: Table<string>)
    ensures EnvOverwritten(table, Flatten(EnvLists(v)), Modified(Name, EnvOf, v, table))
  {
    hide EnvOverwritten, Modified, Apply;
    var lists := EnvLists(v);
    var each := Map(DeviceEntries(EnvOf), v.devices);
    forall i | 0 <= i < |v.devices| ensures each[i] == lists[i] {
      assert each[i] == DeviceEntries(EnvOf)(v.devices[i]) == EnvOf(v.devices[i].edits);
    }
    assert lists == each + [EnvOf(v.common)];
    ModifiedIsFlat(Name, EnvOf, v, table, lists);
    EnvIsOverwritten(table, Flatten(lists));
  }

  lemma ModifiedNodes(v: SpecValue, table: Table<Option<DeviceNode>>)
    requires v.NoNil()
    ensures NodesOverwritten(table, Flatten(NodeLists(v)), Modified(NodePath, NodesOf, v, table))
  {
    hide NodesOverwritten, Modified, Apply;
    var lists := NodeLists(v);
    forall i | 0 <= i < |v.devices| ensures NodesOf(v.devices[i].edits) == lists[i] && None !in lists[i] {
      assert v.devices[i] in v.devices;
      KeepAll(lists[i], IsPointer());
    }
    KeepAll(v.common.nodes, IsPointer());
    var each := Map(DeviceEntries(NodesOf), v.devices);
    assert forall i :: 0 <= i < |v.devices| ==> each[i] == lists[i];
    assert lists == each + [NodesOf(v.common)];
    ModifiedIsFlat(NodePath, NodesOf, v, table, lists);
    FlattenAvoids(lists, None);
    NodesAreOverwritten(table, Flatten(lists));
  }

  lemma ModifiedMounts(v: SpecValue, table: Table<Option<Mount>>)
    requires v.NoNil()
    ensures MountsOverwritten(table, Flatten(MountLists(v)), Modified(MountPath, MountsOf, v, table))
  {
    hide MountsOverwritten, Modified, Apply;
    var lists := MountLists(v);
    forall i | 0 <= i < |v.devices| ensures MountsOf(v.devices[i].edits) == lists[i] && None !in lists[i] {
      assert v.devices[i] in v.devices;
      KeepAll(lists[i], IsPointer());
    }
    KeepAll(v.common.mounts, IsPointer());
    var each := Map(DeviceEntries(MountsOf), v.devices);
    assert forall i :: 0 <= i < |v.devices| ==> each[i] == lists[i];
    assert lists == each + [MountsOf(v.common)];
    ModifiedIsFlat(MountPath, MountsOf, v, table, lists);
    FlattenAvoids(lists, None);
    MountsAreOverwritten(table, Flatten(lists));
  }

  lemma {:induction false} FlattenAvoids<T>(lists: seq<seq<T>>, x: T)
    requires forall i :: 0 <= i < |lists| ==> x !in lists[i]
    ensures x !in Flatten(lists)
  {
    if lists != [] { FlattenAvoids(lists[1..], x); }
  }

  class OciSpec {
    var env: Table<string>
    var devices: Table<Option<DeviceNode>>
    var mounts: Table<Option<Mount>>

    constructor (c: Container)
      ensures Contents() == c
    {
      env, devices, mounts := c.env, c.devices, c.mounts;
    }

    function Contents(): Container
      reads this
    {
      Container(env, devices, mounts)
    }

    method AddMultipleProcessEnv(entries: seq<string>)
      modifies this`env
      ensures env == Apply(Name, old(env), entries)
    {
      for i := 0 to |entries|
        invariant env == Apply(Name, old(env), entries[..i])
      {
        assert entries[..i + 1][..i] == entries[..i];
        env := env[Name(entries[i]) := entries[i]];
      }
      assert entries[..|entries|] == entries;
    }

    /** Each node takes the place of one with its path. */
    method AddDevices(nodes: seq<Option<DeviceNode>>)
      requires None !in nodes
      modifies this`devices
      ensures devices == Apply(NodePath, old(devices), nodes)
    {
      for i := 0 to |nodes|
        invariant devices == Apply(NodePath, old(devices), nodes[..i])
      {
        assert nodes[..i + 1][..i] == nodes[..i];
        var path := NodePath(nodes[i]);
        devices := devices - {path};
        devices := devices[path := nodes[i]];
      }
      assert nodes[..|nodes|] == nodes;
    }

    method AddMounts(entries: seq<Option<Mount>>)
      requires None !in entries
      modifies this`mounts
      ensures mounts == Apply(MountPath, old(mounts), entries)
    {
      for i := 0 to |entries|
        invariant mounts == Apply(MountPath, old(mounts), entries[..i])
      {
        assert entries[..i + 1][..i] == entries[..i];
        var path := MountPath(entries[i]);
        mounts := mounts - {path};
        mounts := mounts[path := entries[i]];
      }
      assert entries[..|entries|] == entries;
    }

    /** Env entries, device nodes and mounts of one set of edits; a nil pointer would crash. */
    method ApplyEdits(e: Edits)
      requires e.NoNil()
      modifies this
      ensures Contents() == Edited(old(Contents()), e)
      ensures EnvOverwritten(old(env), e.env, env)
      ensures NodesOverwritten(old(devices), e.nodes, devices)
      ensures MountsOverwritten(old(mounts), e.mounts, mounts)
    {
      hide Apply, EnvOverwritten, NodesOverwritten, MountsOverwritten;
      KeepAll(e.nodes, IsPointer());
      KeepAll(e.mounts, IsPointer());
      AddMultipleProcessEnv(e.env);
      AddDevices(e.nodes);
      AddMounts(e.mounts);
      EnvIsOverwritten(old(env), e.env);
      NodesAreOverwritten(old(devices), e.nodes);
      MountsAreOverwritten(old(mounts), e.mounts);
    }

    /** The devices of the specification first, in order; its common edits last. */
    method Modify(v: SpecValue)
      requires v.NoNil()
      modifies this
      ensures env == Modified(Name, EnvOf, v, old(env))
      ensures devices == Modified(NodePath, NodesOf, v, old(devices))
      ensures mounts == Modified(MountPath, MountsOf, v, old(mounts))
      ensures EnvOverwritten(old(env), Flatten(EnvLists(v)), env)
      ensures NodesOverwritten(old(devices), Flatten(NodeLists(v)), devices)
      ensures MountsOverwritten(old(mounts), Flatten(MountLists(v)), mounts)
      ensures Keyed(old(env)) ==> Keyed(env)
    {
      hide Apply, EnvOverwritten, NodesOverwritten, MountsOverwritten, Keyed;
      for i := 0 to |v.devices|
        invariant Contents() == EditedAll(old(Contents()), v.devices[..i])
      {
        hide Edited;
        assert v.devices[..i + 1][..i] == v.devices[..i] && v.devices[i] in v.devices;
        ApplyEdits(v.devices[i].edits);
      }
      assert v.devices[..|v.devices|] == v.devices;
      EditedAllIs(old(Contents()), v.devices);
      ApplyEdits(v.common);
      ModifiedEnv(v, old(env));
      ModifiedNodes(v, old(devices));
      ModifiedMounts(v, old(mounts));
      if Keyed(old(env)) { KeyedStays(old(env), Flatten(EnvLists(v)), env); }
    }
  }

  // ----- devices selected by name -----

  /** The entries of the first device called `name`. */
  function ListNamed<T>(give: Edits -> seq<T>, devices: seq<DeviceValue>, name: string): seq<T> {
    if devices == [] then []
    else if devices[0].name == name then give(devices[0].edits)
    else ListNamed(give, devices[1..], name)
  }

  function NamedLists<T>(give: Edits -> seq<T>, v: SpecValue): string -> seq<T> {
    (name: string) => ListNamed(give, v.devices, name)
  }

  /** What the selected devices, in this order, and then the common edits make of a table. */
  function Final<T>(key: T -> string, give: Edits -> seq<T>, v: SpecValue, names: seq<string>, table: Table<T>): Table<T> {
    Applied(key, NamedLists(give, v), give(v.common), names, table)
  }

  /** Whatever devices are selected in whatever order, both specifications have the same effect. */
  ghost predicate SameFinal<T(!new)>(key: T -> string, give: Edits -> seq<T>, v: SpecValue, w: SpecValue) {
    forall names: seq<string>, table: Table<T> :: Final(key, give, w, names, table) == Final(key, give, v, names, table)
  }

  lemma SameFinalIff<T(!new)>(key: T -> string, give: Edits -> seq<T>, v: SpecValue, w: SpecValue)
    ensures SameFinal(key, give, v, w) <==>
      SameLast(key, give(v.common), give(w.common))
      && ListsEndAlike(key, NamedLists(give, v), give(v.common), NamedLists(give, w))
  {
    hide Apply, ApplyAll, SameLast, ListsEndAlike, NamedLists;
    AppliedAgreeIff(key, NamedLists(give, v), give(v.common), NamedLists(give, w), give(w.common));
    if !SameFinal(key, give, v, w) {
      var names: seq<string>, table: Table<T> :| Final(key, give, w, names, table) != Final(key, give, v, names, table);
      assert Applied(key, NamedLists(give, w), give(w.common), names, table) == Final(key, give, w, names, table);
    }
    if !AppliedAgree(key, NamedLists(give, v), give(v.common), NamedLists(give, w), give(w.common)) {
      var names: seq<string>, table: Table<T> :|
        Applied(key, NamedLists(give, w), give(w.common), names, table)
        != Applied(key, NamedLists(give, v), give(v.common), names, table);
      assert Final(key, give, w, names, table) != Final(key, give, v, names, table);
    }
  }

  lemma {:induction false} ListNamedAt<T>(give: Edits -> seq<T>, devices: seq<DeviceValue>, i: nat)
    requires i < |devices| && forall j, k :: 0 <= j < k < |devices| ==> devices[j].name != devices[k].name
    ensures ListNamed(give, devices, devices[i].name) == give(devices[i].edits)
  {
    if i > 0 { ListNamedAt(give, devices[1..], i - 1); }
  }

  lemma {:induction false} ListNamedNobody<T>(give: Edits -> seq<T>, devices: seq<DeviceValue>, name: string)
    requires forall d :: d in devices ==> d.name != name
    ensures ListNamed(give, devices, name) == []
  {
    if devices != [] {
      assert devices[0] in devices;
      ListNamedNobody(give, devices[1..], name);
    }
  }

  lemma ListNamedIs<T>(give: Edits -> seq<T>, v: SpecValue, d: DeviceValue)
    requires UniqueNames(v) && d in v.devices
    ensures ListNamed(give, v.devices, d.name) == give(d.edits)
  {
    var i :| 0 <= i < |v.devices| && v.devices[i] == d;
    ListNamedAt(give, v.devices, i);
  }

  function DeviceNames(v: SpecValue): seq<string> { Map(DeviceName, v.devices) }

  /** Modify applies the devices in the order in which the specification lists them. */
  lemma {:induction false} ModifiedIsFinal<T>(key: T -> string, give: Edits -> seq<T>, v: SpecValue, table: Table<T>)
    requires UniqueNames(v)
    ensures Modified(key, give, v, table) == Final(key, give, v, DeviceNames(v), table)
  {
    var a, b := Map(DeviceEntries(give), v.devices), Map(NamedLists(give, v), DeviceNames(v));
    forall i | 0 <= i < |v.devices| ensures a[i] == b[i] { ListNamedAt(give, v.devices, i); }
    assert a == b;
  }

  lemma UniqueNamesKept(v: SpecValue, w: SpecValue)
    requires Simplified(v, w) && UniqueNames(v)
    ensures UniqueNames(w)
  {
    NamesKept(v, w);
    var a, b := Map(DeviceName, v.devices), Map(DeviceName, w.devices);
    assert NoDuplicates(a);
    PermutationKeepsDistinct(a, b);
    forall i, j | 0 <= i < j < |w.devices| ensures w.devices[i].name != w.devices[j].name {
      assert b[i] == w.devices[i].name && b[j] == w.devices[j].name;
    }
  }

  /** Where selections agree, modifying by the simplified specification applies the original devices in name order. */
  lemma ModifiedBySimplified<T(!new)>(key: T -> string, give: Edits -> seq<T>, v: SpecValue, w: SpecValue, table: Table<T>)
    requires Simplified(v, w) && UniqueNames(v) && SameFinal(key, give, v, w)
    ensures Modified(key, give, w, table) == Final(key, give, v, DeviceNames(w), table)
    ensures Ordered(DeviceNames(w), Less) && multiset(DeviceNames(w)) == multiset(DeviceNames(v))
  {
    UniqueNamesKept(v, w);
    ModifiedIsFinal(key, give, w, table);
    var mid := SimplifiedOrder(v, w);
    NamesKept(v, w);
  }

  // ----- what becomes of a device's entries -----

  /** An entity with this id stays with the device. */
  ghost predicate Survives(v: SpecValue, d: DeviceValue, id: string) {
    EntityIds(d.edits) <= EntityIds(v.common) || id !in EntityIds(v.common)
  }

  ghost function EnvSurvives(v: SpecValue, d: DeviceValue): string -> bool { (e: string) => Survives(v, d, e) }

  ghost function PointerSurvives<T>(v: SpecValue, d: DeviceValue, id: T -> string): Option<T> -> bool {
    (x: Option<T>) => x.Some? && Survives(v, d, id(x.value))
  }

  ghost function Survivors(v: SpecValue, d: DeviceValue): Edits {
    SimplifyEdits(DedupeEdits(v.common), DedupeEdits(d.edits))
  }

  lemma SurvivorsAre(v: SpecValue, d: DeviceValue)
    ensures Survivors(v, d).env == Keep(Unique(d.edits.env), EnvSurvives(v, d))
    ensures Survivors(v, d).nodes == Keep(Unique(NonNil(d.edits.nodes)), PointerSurvives(v, d, NodeId))
    ensures Survivors(v, d).mounts == Keep(Unique(NonNil(d.edits.mounts)), PointerSurvives(v, d, MountId))
  {
    hide NodeId, HookId, MountId, EntityIds, Unique, Keep;
    var e, common := DedupeEdits(d.edits), DedupeEdits(v.common);
    DedupeKeepsIds(v.common);
    DedupeKeepsIds(d.edits);
    SimplifiedIs(common, e);
    if EntityIds(d.edits) <= EntityIds(v.common) {
      KeepAll(e.env, EnvSurvives(v, d));
      KeepAll(e.nodes, PointerSurvives(v, d, NodeId));
      KeepAll(e.mounts, PointerSurvives(v, d, MountId));
    } else {
      KeepSame(e.env, OutsideEnv(EntityIds(common)), EnvSurvives(v, d));
      KeepSame(e.nodes, Outside(EntityIds(common), NodeId), PointerSurvives(v, d, NodeId));
      KeepSame(e.mounts, Outside(EntityIds(common), MountId), PointerSurvives(v, d, MountId));
    }
  }

  lemma DedupeKeepsIds(e: Edits)
    ensures EntityIds(DedupeEdits(e)) == EntityIds(e) && DedupeEdits(e).NoNil()
  {
    DedupeKeepsEntities(e);
  }

  /** The device that answers to a name before and after simplifying; None if there is none. */
  lemma SelectedIs<T>(give: Edits -> seq<T>, v: SpecValue, w: SpecValue, name: string)
      returns (d: Option<DeviceValue>, x: Edits)
    requires Simplified(v, w) && UniqueNames(v)
    ensures d.None? ==> ListNamed(give, v.devices, name) == [] == ListNamed(give, w.devices, name)
    ensures d.None? ==> forall o :: o in v.devices ==> o.name != name
    ensures d.Some? ==> d.value in v.devices && d.value.name == name && SortedEdits(Survivors(v, d.value), x)
    ensures d.Some? ==> ListNamed(give, v.devices, name) == give(d.value.edits)
    ensures d.Some? ==> ListNamed(give, w.devices, name) == give(x)
  {
    hide Simplified, SortedEdits, SimplifyEdits;
    x := EMPTY_EDITS;
    if o :| o in v.devices && o.name == name {
      UniqueNamesKept(v, w);
      var y := Outcome(v, w, o);
      ListNamedIs(give, v, o);
      ListNamedIs(give, w, y);
      d, x := Some(o), y.edits;
    } else {
      forall y | y in w.devices ensures y.name != name { var o := Origin(v, w, y); }
      ListNamedNobody(give, v.devices, name);
      ListNamedNobody(give, w.devices, name);
      d := None;
    }
  }

  lemma CommonEnvIs(v: SpecValue, w: SpecValue)
    requires Simplified(v, w)
    ensures w.common.env == Unique(v.common.env)
  {
    var mid := SimplifiedOrder(v, w);
  }
}
