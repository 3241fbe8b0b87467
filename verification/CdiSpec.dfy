/** The values of a CDI specification and what they mean for a container. */
module CdiSpec {
  import opened Wrappers
  import opened Sequences
  import opened Strings
  import opened JsonText

  datatype DeviceNode = DeviceNode(
    path: string, hostPath: string, kind: string, major: int, minor: int,
    fileMode: Option<nat>, permissions: string, uid: Option<nat>, gid: Option<nat>)

  datatype Mount = Mount(hostPath: string, containerPath: string, options: seq<string>, kind: string)

  datatype Hook = Hook(hookName: string, path: string, args: seq<string>, env: seq<string>, timeout: Option<int>)

  datatype NetDevice = NetDevice(hostInterfaceName: string, name: string)

  datatype IntelRdt = IntelRdt(
    closID: string, l3CacheSchema: string, memBwSchema: string, schemata: seq<string>, enableMonitoring: bool)

  /** Container edits by value; None stands for a nil entry of a list of pointers. */
  datatype Edits = Edits(
    gids: seq<nat>,
    nodes: seq<Option<DeviceNode>>,
    env: seq<string>,
    hooks: seq<Option<Hook>>,
    mounts: seq<Option<Mount>>,
    netDevices: seq<NetDevice>,
    intelRdt: Option<IntelRdt>)
  {
    /** Note that group ids, net devices and RDT settings do not count. */
    predicate IsEmpty() { nodes == [] && env == [] && hooks == [] && mounts == [] }

    predicate NoNil() { None !in nodes && None !in hooks && None !in mounts }
  }

  datatype DeviceValue = DeviceValue(name: string, annotations: map<string, string>, edits: Edits)

  datatype SpecValue = SpecValue(devices: seq<DeviceValue>, common: Edits)
  {
    ghost predicate NoNil() { common.NoNil() && forall d :: d in devices ==> d.edits.NoNil() }
  }

  const EMPTY_EDITS := Edits([], [], [], [], [], [], None)

  // ----- entities and their ids -----

  datatype Entity = NodeEntity(node: DeviceNode) | EnvEntity(env: string) | HookEntity(hook: Hook) | MountEntity(mount: Mount)

  /** The entities that edits list, order and repetition aside. */
  ghost function Entities(e: Edits): set<Entity> {
    NodeEntities(e.nodes) + EnvEntities(e.env) + HookEntities(e.hooks) + MountEntities(e.mounts)
  }

  ghost function NodeEntities(s: seq<Option<DeviceNode>>): set<Entity> {
    set x | x in s && x.Some? :: NodeEntity(x.value)
  }

  ghost function EnvEntities(s: seq<string>): set<Entity> {
    set x | x in s :: EnvEntity(x)
  }

  ghost function HookEntities(s: seq<Option<Hook>>): set<Entity> {
    set x | x in s && x.Some? :: HookEntity(x.value)
  }

  ghost function MountEntities(s: seq<Option<Mount>>): set<Entity> {
    set x | x in s && x.Some? :: MountEntity(x.value)
  }

  function OmitText(s: string): Option<Json> { if s == "" then None else Some(Text(s)) }

  function OmitNumber(n: int): Option<Json> { if n == 0 then None else Some(Number(n)) }

  function OmitTexts(s: seq<string>): Option<Json> { if s == [] then None else Some(Texts(s)) }

  function OmitNil(n: Option<int>): Option<Json> { if n.None? then None else Some(Number(n.value)) }

  function NodeSlots(n: DeviceNode): Slots {
    [("path", Some(Text(n.path))), ("hostPath", OmitText(n.hostPath)), ("type", OmitText(n.kind)),
     ("major", OmitNumber(n.major)), ("minor", OmitNumber(n.minor)), ("fileMode", OmitNil(n.fileMode)),
     ("permissions", OmitText(n.permissions)), ("uid", OmitNil(n.uid)), ("gid", OmitNil(n.gid))]
  }

  function MountSlots(m: Mount): Slots {
    [("hostPath", Some(Text(m.hostPath))), ("containerPath", Some(Text(m.containerPath))),
     ("options", OmitTexts(m.options)), ("type", OmitText(m.kind))]
  }

  function HookSlots(h: Hook): Slots {
    [("hookName", Some(Text(h.hookName))), ("path", Some(Text(h.path))), ("args", OmitTexts(h.args)),
     ("env", OmitTexts(h.env)), ("timeout", OmitNil(h.timeout))]
  }

  function NodeId(n: DeviceNode): string { Marshal(NodeSlots(n)) }

  function MountId(m: Mount): string { Marshal(MountSlots(m)) }

  function HookId(h: Hook): string { Marshal(HookSlots(h)) }

  /** The id method of each kind: the JSON text, and for an env entry the entry itself. */
  function Id(x: Entity): string {
    match x
    case NodeEntity(n) => NodeId(n)
    case EnvEntity(s) => s
    case HookEntity(h) => HookId(h)
    case MountEntity(m) => MountId(m)
  }

  ghost predicate Injective<T(!new)>(id: T -> string) {
    forall x, y :: id(x) == id(y) ==> x == y
  }

  lemma NodeSlotsInjective(a: DeviceNode, b: DeviceNode)
    requires NodeSlots(a) == NodeSlots(b)
    ensures a == b
  {
    var s, t := NodeSlots(a), NodeSlots(b);
    assert s[0] == t[0] && s[1] == t[1] && s[2] == t[2] && s[3] == t[3] && s[4] == t[4];
    assert s[5] == t[5] && s[6] == t[6] && s[7] == t[7] && s[8] == t[8];
  }

  lemma NodeKeys(a: DeviceNode, b: DeviceNode)
    ensures SameKeys(NodeSlots(a), NodeSlots(b))
  {
    assert "path"[0] == 'p' && "type"[0] == 't';
    assert "hostPath"[0] == 'h' && "fileMode"[0] == 'f';
    assert "major"[1] == 'a' && "minor"[1] == 'i';
    assert "uid"[0] == 'u' && "gid"[0] == 'g';
  }

  lemma NodeIdInjective(a: DeviceNode, b: DeviceNode)
    requires NodeId(a) == NodeId(b)
    ensures a == b
  {
    hide Marshal;
    NodeKeys(a, b);
    MarshalInjective(NodeSlots(a), NodeSlots(b));
    NodeSlotsInjective(a, b);
  }

  lemma MountIdInjective(a: Mount, b: Mount)
    requires MountId(a) == MountId(b)
    ensures a == b
  {
    hide Marshal;
    var s, t := MountSlots(a), MountSlots(b);
    assert SameKeys(s, t);
    MarshalInjective(s, t);
    assert s[0] == t[0] && s[1] == t[1] && s[2] == t[2] && s[3] == t[3];
  }

  lemma HookKeys(a: Hook, b: Hook)
    ensures SameKeys(HookSlots(a), HookSlots(b))
  {
    assert "path"[0] == 'p' && "args"[0] == 'a';
  }

  lemma HookIdInjective(a: Hook, b: Hook)
    requires HookId(a) == HookId(b)
    ensures a == b
  {
    hide Marshal;
    var s, t := HookSlots(a), HookSlots(b);
    HookKeys(a, b);
    MarshalInjective(s, t);
    assert s[0] == t[0] && s[1] == t[1] && s[2] == t[2] && s[3] == t[3] && s[4] == t[4];
  }

  lemma IdsInjective()
    ensures Injective(NodeId) && Injective(HookId) && Injective(MountId)
  {
    forall a, b | NodeId(a) == NodeId(b) ensures a == b { NodeIdInjective(a, b); }
    forall a, b | HookId(a) == HookId(b) ensures a == b { HookIdInjective(a, b); }
    forall a, b | MountId(a) == MountId(b) ensures a == b { MountIdInjective(a, b); }
  }

  /** The one way distinct entities share an id: an env entry that is the JSON text of another kind. */
  lemma IdCollision(x: Entity, y: Entity)
    requires Id(x) == Id(y) && x != y
    ensures x.EnvEntity? != y.EnvEntity?
  {
    if !x.EnvEntity? && !y.EnvEntity? {
      MarshalReadable(SlotsOf(x), SlotsOf(y));
      FirstKeyTellsKind(x, y);
      IdsInjective();
      assert false;
    }
  }

  lemma FirstKeyTellsKind(x: Entity, y: Entity)
    requires !x.EnvEntity? && !y.EnvEntity? && Present(SlotsOf(x)) == Present(SlotsOf(y))
    ensures x.NodeEntity? == y.NodeEntity? && x.HookEntity? == y.HookEntity?
  {
    assert FirstKey(x) == SlotsOf(x)[0].0 == Present(SlotsOf(x))[0].0;
    assert FirstKey(y) == SlotsOf(y)[0].0 == Present(SlotsOf(y))[0].0;
    assert "hookName"[1] == 'o' && "hookName"[2] == 'o' && "hostPath"[2] == 's' && |"path"| == 4;
  }

  function SlotsOf(x: Entity): Slots
    requires !x.EnvEntity?
  {
    if x.NodeEntity? then NodeSlots(x.node) else if x.HookEntity? then HookSlots(x.hook) else MountSlots(x.mount)
  }

  function FirstKey(x: Entity): string
    requires !x.EnvEntity?
  {
    if x.NodeEntity? then "path" else if x.HookEntity? then "hookName" else "hostPath"
  }

  /** The JSON text of a struct starts with a brace. */
  lemma IdStartsWithBrace(x: Entity)
    requires !x.EnvEntity?
    ensures Id(x) != "" && Id(x)[0] == '{'
  {
  }

  // ----- the ids as text -----

  function TextOf(n: Option<int>): string { if n.Some? then Decimal(n.value) else "" }

  function ListText(items: seq<string>): string { "[" + Join(Map(Quote, items), ",") + "]" }

  /** What the fields of a device node after its path contribute: nothing if empty, zero or nil. */
  function NodeParts(n: DeviceNode): seq<string> {
    [Part("hostPath", n.hostPath != "", Quote(n.hostPath)), Part("type", n.kind != "", Quote(n.kind)),
     Part("major", n.major != 0, Decimal(n.major)), Part("minor", n.minor != 0, Decimal(n.minor)),
     Part("fileMode", n.fileMode.Some?, TextOf(n.fileMode)), Part("permissions", n.permissions != "", Quote(n.permissions)),
     Part("uid", n.uid.Some?, TextOf(n.uid)), Part("gid", n.gid.Some?, TextOf(n.gid))]
  }

  function MountParts(m: Mount): seq<string> {
    [Part("containerPath", true, Quote(m.containerPath)), Part("options", m.options != [], ListText(m.options)),
     Part("type", m.kind != "", Quote(m.kind))]
  }

  function HookParts(h: Hook): seq<string> {
    [Part("path", true, Quote(h.path)), Part("args", h.args != [], ListText(h.args)),
     Part("env", h.env != [], ListText(h.env)), Part("timeout", h.timeout.Some?, TextOf(h.timeout))]
  }

  lemma NodePartAt(n: DeviceNode, i: nat)
    requires i < 8
    ensures Contributes(NodeSlots(n)[i + 1], NodeParts(n)[i])
  {
    hide Quote, Decimal, PlainText;
    LettersArePlain(NodeSlots(n)[i + 1].0);
  }

  lemma MountPartAt(m: Mount, i: nat)
    requires i < 3
    ensures Contributes(MountSlots(m)[i + 1], MountParts(m)[i])
  {
    hide Quote, PlainText;
    ArrayText(m.options);
    LettersArePlain(MountSlots(m)[i + 1].0);
  }

  lemma HookPartAt(h: Hook, i: nat)
    requires i < 4
    ensures Contributes(HookSlots(h)[i + 1], HookParts(h)[i])
  {
    hide Quote, Decimal, PlainText;
    ArrayText(h.args);
    ArrayText(h.env);
    LettersArePlain(HookSlots(h)[i + 1].0);
  }

  /** The id of a device node is a JSON object. */
  lemma {:induction false} NodeIdText(n: DeviceNode)
    ensures NodeId(n) == "{\"path\":" + Quote(n.path) + Flatten(NodeParts(n)) + "}"
  {
    hide Marshal, Quote, Contributes, PlainText, NodeParts, Part;
    LettersArePlain("path");
    var rest := NodeSlots(n)[1..];
    assert NodeSlots(n) == [("path", Some(Text(n.path)))] + rest;
    NodePartCount(n);
    forall i | 0 <= i < 8 ensures Contributes(rest[i], NodeParts(n)[i]) { NodePartAt(n, i); }
    StructText("path", Text(n.path), rest, NodeParts(n));
  }

  lemma NodePartCount(n: DeviceNode)
    ensures |NodeParts(n)| == 8
  {
  }

  lemma {:induction false} MountIdText(m: Mount)
    ensures MountId(m) == "{\"hostPath\":" + Quote(m.hostPath) + Flatten(MountParts(m)) + "}"
  {
    hide Marshal, Quote, Contributes, PlainText, Part;
    LettersArePlain("hostPath");
    var rest := MountSlots(m)[1..];
    assert MountSlots(m) == [("hostPath", Some(Text(m.hostPath)))] + rest;
    forall i | 0 <= i < 3 ensures Contributes(rest[i], MountParts(m)[i]) { MountPartAt(m, i); }
    StructText("hostPath", Text(m.hostPath), rest, MountParts(m));
  }

  lemma {:induction false} HookIdText(h: Hook)
    ensures HookId(h) == "{\"hookName\":" + Quote(h.hookName) + Flatten(HookParts(h)) + "}"
  {
    hide Marshal, Quote, Contributes, PlainText, Part;
    LettersArePlain("hookName");
    var rest := HookSlots(h)[1..];
    assert HookSlots(h) == [("hookName", Some(Text(h.hookName)))] + rest;
    forall i | 0 <= i < 4 ensures Contributes(rest[i], HookParts(h)[i]) { HookPartAt(h, i); }
    StructText("hookName", Text(h.hookName), rest, HookParts(h));
  }

  /** What makes edits count as empty: none of the four kinds of entities is listed. */
  lemma EmptyIff(e: Edits)
    ensures e.IsEmpty() <==> |e.nodes| + |e.env| + |e.hooks| + |e.mounts| == 0
  {
  }
}
