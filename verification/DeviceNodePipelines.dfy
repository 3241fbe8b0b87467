/** The pipelines that pick the device nodes of a device from the CSV mount specs. */
module DeviceNodePipelines {
  import opened Wrappers
  import opened Sequences
  import opened Strings
  import opened MountSpecs

  datatype Mode = DGpu | IGpu | Other

  const NODE_PREFIX := "/dev/nvidia"

  /** The paths matched by ^/dev/nvidia[0-9]+$ */
  predicate IsRegularNode(path: string) {
    && HasPrefix(path, NODE_PREFIX)
    && |path| > |NODE_PREFIX|
    && forall i :: |NODE_PREFIX| <= i < |path| ==> '0' <= path[i] <= '9'
  }

  const ONLY_DEVICE_NODES: Option<Transformer> :=
    Some(ByType(map[Dir := RemoveAll, Lib := RemoveAll, Sym := RemoveAll]))

  const WITHOUT_REGULAR_NODES: Option<Transformer> := Some(ByType(map[Dev := Matcher(IsRegularNode)]))

  const CONTROL_NODES: seq<string> :=
    ["/dev/nvidia-modeset", "/dev/nvidia-uvm-tools", "/dev/nvidia-uvm", "/dev/nvidiactl"]

  const SECOND_GPU: seq<string> := ["/dev/nvidia1"]

  const DISPLAY: seq<string> := ["/dev/nvidia2"]

  predicate IsSpecial(c: char) { c == '*' || c == '?' || c == '[' || c == '\\' }

  lemma SpecialCharacters(c: char)
    ensures IsSpecial(c) <==> c in "*?[\\"
  {
    var s := "*?[\\";
    assert s == ['*', '?', '[', '\\'];
  }

  /** No character that filepath.Match treats specially. */
  predicate IsLiteral(pattern: string) { forall i :: 0 <= i < |pattern| ==> !IsSpecial(pattern[i]) }

  /** What filepath.Match does for a pattern without special characters. */
  ghost predicate MatchesLiterals(glob: Glob) {
    forall p: string, name: string :: IsLiteral(p) ==> glob(p, name) == (p == name)
  }

  // ----- what each mode selects, stated outright -----

  ghost predicate Decimal(digits: string) { digits != "" && forall c :: c in digits ==> c in "0123456789" }

  ghost predicate NumberedNode(path: string) { exists digits :: Decimal(digits) && path == "/dev/nvidia" + digits }

  ghost function DGpuKeeps(): string -> bool {
    (p: string) => !NumberedNode(p)
      && p !in ["/dev/nvidia-modeset", "/dev/nvidia-uvm-tools", "/dev/nvidia-uvm", "/dev/nvidiactl"]
  }

  function IGpuKeeps(): string -> bool { (p: string) => p != "/dev/nvidia1" }

  ghost function Expected(mode: Mode, source: Lists, ty: MountType): seq<string> {
    if ty != Dev then []
    else
      match mode
      case DGpu => Keep(Get(source, Dev), DGpuKeeps())
      case IGpu => Keep(Get(source, Dev), IGpuKeeps()) + ["/dev/nvidia2"]
      case Other => Get(source, Dev)
  }

  lemma DigitCodes(c: char)
    ensures c in "0123456789" <==> '0' <= c <= '9'
  {
    var s := "0123456789";
    if '0' <= c <= '9' { assert s[c as int - '0' as int] == c; }
  }

  lemma RegularNodesAreNumbered(path: string)
    ensures IsRegularNode(path) <==> NumberedNode(path)
  {
    var n := |"/dev/nvidia"|;
    if IsRegularNode(path) {
      var digits := path[n..];
      forall c | c in digits ensures c in "0123456789" { DigitCodes(c); }
      assert Decimal(digits) && path == "/dev/nvidia" + digits;
    }
    if digits :| Decimal(digits) && path == "/dev/nvidia" + digits {
      forall i | n <= i < |path| ensures '0' <= path[i] <= '9' {
        assert path[i] == digits[i - n] && digits[i - n] in digits;
        DigitCodes(path[i]);
      }
    }
  }

  function Pipeline(mode: Mode, source: PathMap, patterns: PathMap, extra: PathMap): Typer {
    var nodes := Transform(Raw(source), [ONLY_DEVICE_NODES]);
    match mode
    case DGpu => Transform(nodes, [WITHOUT_REGULAR_NODES, Some(Without(Raw(patterns)))])
    case IGpu => Merge([Some(Transform(nodes, [Some(Without(Raw(patterns)))])), Some(Raw(extra))])
    case Other => nodes
  }

  lemma LiteralHasNoStars(pattern: string)
    requires IsLiteral(pattern)
    ensures !HasPrefix(pattern, "**/")
  {
    assert "*?[\\"[0] == "**/"[0] == '*';
    assert |pattern| >= 3 ==> pattern[..3][0] == pattern[0];
  }

  lemma LiteralsMatchThemselves(glob: Glob, patterns: seq<string>, name: string)
    requires MatchesLiterals(glob)
    requires forall i :: 0 <= i < |patterns| ==> IsLiteral(patterns[i])
    ensures AnyMatches(glob, patterns, name) <==> name in patterns
  {
    forall i | 0 <= i < |patterns| ensures PatternMatches(glob, patterns[i], name) == (patterns[i] == name) {
      LiteralHasNoStars(patterns[i]);
    }
  }

  lemma ConstantsAreLiteral()
    ensures forall i :: 0 <= i < |CONTROL_NODES| ==> IsLiteral(CONTROL_NODES[i])
    ensures IsLiteral(SECOND_GPU[0])
  {
  }

  /** The first filter empties every list but that of device nodes. */
  lemma {:induction false} OnlyDeviceNodes(source: PathMap, glob: Glob, s: Snapshot, ty: MountType)
    ensures Den(Transform(Raw(source), [ONLY_DEVICE_NODES]), glob, s, ty) == if ty == Dev then Get(At(s, source), ty) else []
  {
    var paths, p := Get(At(s, source), ty), PassesAll([ONLY_DEVICE_NODES], glob, s, ty);
    forall path: string ensures p(path) <==> ty == Dev { AllPassMembers([ONLY_DEVICE_NODES], glob, s, ty, path); }
    if ty == Dev { KeepAll(paths, p); } else { KeepNone(paths, p); }
  }

  lemma {:induction false} WithoutPasses(patterns: PathMap, names: seq<string>, glob: Glob, s: Snapshot, path: string)
    requires MatchesLiterals(glob) && Get(At(s, patterns), Dev) == names
    requires forall i :: 0 <= i < |names| ==> IsLiteral(names[i])
    ensures Passes(Some(Without(Raw(patterns))), glob, s, Dev, path) <==> path !in names
  {
    LiteralsMatchThemselves(glob, names, path);
  }

  lemma {:induction false} DGpuFilters(patterns: PathMap, glob: Glob, s: Snapshot, path: string)
    requires MatchesLiterals(glob) && Get(At(s, patterns), Dev) == CONTROL_NODES
    ensures PassesAll([WITHOUT_REGULAR_NODES, Some(Without(Raw(patterns)))], glob, s, Dev)(path) == DGpuKeeps()(path)
  {
    var ts := [WITHOUT_REGULAR_NODES, Some(Without(Raw(patterns)))];
    RegularNodesAreNumbered(path);
    ConstantsAreLiteral();
    AllPassMembers(ts, glob, s, Dev, path);
    WithoutPasses(patterns, CONTROL_NODES, glob, s, path);
    assert Passes(ts[0], glob, s, Dev, path) <==> !IsRegularNode(path);
    assert ts[1] == Some(Without(Raw(patterns)));
  }

  lemma {:induction false} IGpuFilters(patterns: PathMap, glob: Glob, s: Snapshot, path: string)
    requires MatchesLiterals(glob) && Get(At(s, patterns), Dev) == SECOND_GPU
    ensures PassesAll([Some(Without(Raw(patterns)))], glob, s, Dev)(path) == IGpuKeeps()(path)
  {
    var ts := [Some(Without(Raw(patterns)))];
    ConstantsAreLiteral();
    AllPassMembers(ts, glob, s, Dev, path);
    WithoutPasses(patterns, SECOND_GPU, glob, s, path);
    assert ts[0] == Some(Without(Raw(patterns)));
  }

  /** Every pipeline means the stated list, whatever the CSV files say. */
  lemma {:induction false} PipelineMeansExpected(mode: Mode, source: PathMap, patterns: PathMap, extra: PathMap,
      glob: Glob, s: Snapshot, ty: MountType)
    requires MatchesLiterals(glob)
    requires At(s, patterns) == map[Dev := if mode.DGpu? then CONTROL_NODES else SECOND_GPU]
    requires At(s, extra) == map[Dev := DISPLAY]
    ensures Den(Pipeline(mode, source, patterns, extra), glob, s, ty) == Expected(mode, At(s, source), ty)
  {
    var nodes := Transform(Raw(source), [ONLY_DEVICE_NODES]);
    OnlyDeviceNodes(source, glob, s, ty);
    var paths := Get(At(s, source), Dev);
    match mode
    case DGpu =>
      var p := PassesAll([WITHOUT_REGULAR_NODES, Some(Without(Raw(patterns)))], glob, s, ty);
      if ty == Dev {
        forall path: string ensures p(path) == DGpuKeeps()(path) { DGpuFilters(patterns, glob, s, path); }
        KeepSame(paths, p, DGpuKeeps());
      }
    case IGpu =>
      var p := PassesAll([Some(Without(Raw(patterns)))], glob, s, ty);
      if ty == Dev {
        forall path: string ensures p(path) == IGpuKeeps()(path) { IGpuFilters(patterns, glob, s, path); }
        KeepSame(paths, p, IGpuKeeps());
      }
      TwoSources(Transform(nodes, [Some(Without(Raw(patterns)))]), Raw(extra), glob, s, ty);
    case Other =>
  }

  lemma {:induction false} TwoPatterns(a: Option<Transformer>, b: Option<Transformer>)
    requires PatternRefs(a) == {}
    ensures LinearPatterns([a, b]) == (LinearPattern(a) && LinearPattern(b)) && PatternRefsAll([a, b]) == PatternRefs(b)
  {
    OnePattern(a);
    assert [a, b][..1] == [a];
  }

  lemma {:induction false} TwoSourcesLinear(a: Typer, b: Typer)
    requires Linear(a) && Linear(b) && Refs(a) !! Refs(b)
    ensures Linear(Merge([Some(a), Some(b)])) && Refs(Merge([Some(a), Some(b)])) == Refs(a) + Refs(b)
  {
    var one, two := [Some(a)], [Some(a), Some(b)];
    assert one[..|one| - 1] == [] && one[|one| - 1] == Some(a);
    assert two[..|two| - 1] == one && two[|two| - 1] == Some(b);
    assert RefsOne(Some(a)) == Refs(a) && RefsOne(Some(b)) == Refs(b);
    assert LinearOne(Some(a)) && LinearOne(Some(b));
    assert RefsAll([]) == {} && LinearAll([]);
    assert RefsAll(one) == Refs(a) && LinearAll(one);
    assert RefsAll(two) == Refs(a) + Refs(b);
  }

  lemma PipelineIsLinear(mode: Mode, source: PathMap, patterns: PathMap, extra: PathMap)
    requires source != patterns && source != extra && patterns != extra
    ensures Linear(Pipeline(mode, source, patterns, extra))
    ensures Refs(Pipeline(mode, source, patterns, extra)) <= {source, patterns, extra}
  {
    var nodes, without := Transform(Raw(source), [ONLY_DEVICE_NODES]), Some(Without(Raw(patterns)));
    OnePattern(ONLY_DEVICE_NODES);
    OnePattern(without);
    TwoPatterns(WITHOUT_REGULAR_NODES, without);
    TwoSourcesLinear(if mode.IGpu? then Transform(nodes, [without]) else nodes, Raw(extra));
  }

  /** Builds the pipeline of a mode over the CSV specs and evaluates it as often as asked. */
  method DeviceNodeMountSpecs(mode: Mode, source: PathMap, times: nat, glob: Glob) returns (m: PathMap)
    requires MatchesLiterals(glob) && times > 0
    modifies source
    ensures forall ty :: Get(m.lists, ty) == Expected(mode, old(source.lists), ty)
    ensures forall ty :: ty != Dev ==> Get(m.lists, ty) == []
    ensures mode.DGpu? ==> forall digits :: Decimal(digits) ==> "/dev/nvidia" + digits !in Get(m.lists, Dev)
    ensures mode.DGpu? ==> Get(m.lists, Dev) == Keep(Get(old(source.lists), Dev), DGpuKeeps())
    ensures mode.IGpu? ==>
      Get(m.lists, Dev) == Keep(Get(old(source.lists), Dev), p => p != "/dev/nvidia1") + ["/dev/nvidia2"]
    ensures mode.Other? ==> Get(m.lists, Dev) == Get(old(source.lists), Dev)
  {
    var patterns := new PathMap(map[Dev := if mode.DGpu? then CONTROL_NODES else SECOND_GPU]);
    var extra := new PathMap(map[Dev := DISPLAY]);
    var t := Pipeline(mode, source, patterns, extra);
    PipelineIsLinear(mode, source, patterns, extra);
    ghost var world := {source, patterns, extra};
    forall ty ensures Den(t, glob, Snap(world), ty) == Expected(mode, source.lists, ty) {
      PipelineMeansExpected(mode, source, patterns, extra, glob, Snap(world), ty);
    }
    m := EvaluateRepeatedly(t, times, glob, world);
  }
}
