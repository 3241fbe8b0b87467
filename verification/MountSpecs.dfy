/**
 * Lazy pipelines over mount specs by type.
 *
 * Evaluating a raw map yields the map itself and filters overwrite what they are
 * given, so evaluating a pipeline rewrites its source.
 */
module MountSpecs {
  import opened Wrappers
  import opened Sequences
  import opened Strings
  import opened Paths

  datatype MountType = Dev | Dir | Lib | Sym

  type Lists = map<MountType, seq<string>>

  function Get(m: Lists, ty: MountType): seq<string> { if ty in m then m[ty] else [] }

  /** A Go map: a reference to lists by type. */
  class PathMap {
    var lists: Lists

    constructor (lists: Lists)
      ensures this.lists == lists
    {
      this.lists := lists;
    }
  }

  datatype Filter = RemoveAll | Matcher(matches: string -> bool)

  datatype Typer =
    | Raw(source: PathMap)
    | Merge(sources: seq<Option<Typer>>)
    | Transform(input: Typer, ts: seq<Option<Transformer>>)

  datatype Transformer =
    | ByType(filters: map<MountType, Filter>)
    | Without(patterns: Typer)
    | IgnoreSymlinks(ignored: seq<string>)

  /** filepath.Match, as a predicate of pattern and name. */
  type Glob = (string, string) -> bool

  predicate PatternMatches(glob: Glob, pattern: string, name: string) {
    if HasPrefix(pattern, "**/") then glob(TrimPrefix(pattern, "**/"), Base(name)) else glob(pattern, name)
  }

  predicate AnyMatches(glob: Glob, patterns: seq<string>, name: string) {
    exists i :: 0 <= i < |patterns| && PatternMatches(glob, patterns[i], name)
  }

  /** A pattern is matched against the whole name, or after "**" and a separator against its last component. */
  lemma {:induction false} PatternLaws(glob: Glob, pattern: string, dir: string, name: string)
    requires name != "" && '/' !in name
    ensures PatternMatches(glob, "**/" + pattern, dir + "/" + name) == glob(pattern, name)
    ensures PatternMatches(glob, "**/" + pattern, name) == glob(pattern, name)
    ensures !("**/" <= pattern) ==> PatternMatches(glob, pattern, dir) == glob(pattern, dir)
  {
    PrefixLaws(pattern, "**/");
    PrefixLaws("**/" + pattern, "**/");
    Paths.BaseOf(dir, name);
  }

  lemma AnyPattern(glob: Glob, patterns: seq<string>, name: string)
    ensures AnyMatches(glob, patterns, name) <==> exists p :: p in patterns && PatternMatches(glob, p, name)
  {
    hide PatternMatches;
    if p :| p in patterns && PatternMatches(glob, p, name) {
      var i :| 0 <= i < |patterns| && patterns[i] == p;
      assert PatternMatches(glob, patterns[i], name);
    }
  }

  lemma ListedByType(m: Lists, ty: MountType)
    ensures ty in m ==> Get(m, ty) == m[ty]
    ensures ty !in m ==> Get(m, ty) == []
  {
  }

  // ----- what a pipeline means, given the contents of its maps -----

  type Snapshot = map<PathMap, Lists>

  ghost function At(s: Snapshot, o: PathMap): Lists { if o in s then s[o] else map[] }

  /** The list of one type, by pure concatenation and filtering. */
  ghost function Den(t: Typer, glob: Glob, s: Snapshot, ty: MountType): seq<string>
    decreases t, 2
  {
    match t
    case Raw(o) => Get(At(s, o), ty)
    case Merge(sources) => DenAll(sources, glob, s, ty)
    case Transform(input, ts) => Keep(Den(input, glob, s, ty), PassesAll(ts, glob, s, ty))
  }

  ghost function DenAll(sources: seq<Option<Typer>>, glob: Glob, s: Snapshot, ty: MountType): seq<string>
    decreases sources, 1
  {
    if sources == [] then []
    else
      DenAll(sources[..|sources| - 1], glob, s, ty) + DenOne(sources[|sources| - 1], glob, s, ty)
  }

  ghost function DenOne(source: Option<Typer>, glob: Glob, s: Snapshot, ty: MountType): seq<string>
    decreases source, 1
  {
    match source
    case None => []
    case Some(t) => Den(t, glob, s, ty)
  }

  /** Whether a path survives one transformer; a nil transformer is skipped. */
  ghost predicate Passes(t: Option<Transformer>, glob: Glob, s: Snapshot, ty: MountType, path: string)
    decreases t, 0
  {
    match t
    case None => true
    case Some(ByType(filters)) => ty in filters ==> filters[ty].Matcher? && !filters[ty].matches(path)
    case Some(Without(m)) => !AnyMatches(glob, Den(m, glob, s, ty), path)
    case Some(IgnoreSymlinks(ignored)) => ty == Sym ==> !AnyMatches(glob, ignored, path)
  }

  ghost function PassesAll(ts: seq<Option<Transformer>>, glob: Glob, s: Snapshot, ty: MountType): string -> bool
    decreases ts, 1
  {
    path => AllPass(ts, glob, s, ty, path)
  }

  ghost predicate AllPass(ts: seq<Option<Transformer>>, glob: Glob, s: Snapshot, ty: MountType, path: string)
    decreases ts, 0
  {
    ts != [] ==> AllPass(ts[..|ts| - 1], glob, s, ty, path) && Passes(ts[|ts| - 1], glob, s, ty, path)
  }

  // ----- which maps a pipeline touches -----

  ghost function Refs(t: Typer): set<PathMap>
    decreases t, 2
  {
    match t
    case Raw(o) => {o}
    case Merge(sources) => RefsAll(sources)
    case Transform(input, ts) => Refs(input) + PatternRefsAll(ts)
  }

  ghost function RefsAll(sources: seq<Option<Typer>>): set<PathMap>
    decreases sources, 1
  {
    if sources == [] then {} else RefsAll(sources[..|sources| - 1]) + RefsOne(sources[|sources| - 1])
  }

  ghost function RefsOne(source: Option<Typer>): set<PathMap>
    decreases source, 1
  {
    match source
    case None => {}
    case Some(t) => Refs(t)
  }

  ghost function PatternRefs(t: Option<Transformer>): set<PathMap>
    decreases t, 1
  {
    match t
    case Some(Without(m)) => Refs(m)
    case _ => {}
  }

  ghost function PatternRefsAll(ts: seq<Option<Transformer>>): set<PathMap>
    decreases ts, 1
  {
    if ts == [] then {} else PatternRefsAll(ts[..|ts| - 1]) + PatternRefs(ts[|ts| - 1])
  }

  /** Every raw map occurs once: one pipeline a map, and no map filters itself. */
  ghost predicate Linear(t: Typer)
    decreases t, 2
  {
    match t
    case Raw(_) => true
    case Merge(sources) => LinearAll(sources)
    case Transform(input, ts) => Linear(input) && LinearPatterns(ts) && Refs(input) !! PatternRefsAll(ts)
  }

  ghost predicate LinearAll(sources: seq<Option<Typer>>)
    decreases sources, 1
  {
    sources != [] ==>
      var init, last := sources[..|sources| - 1], sources[|sources| - 1];
      LinearAll(init) && LinearOne(last) && RefsAll(init) !! RefsOne(last)
  }

  ghost predicate LinearOne(source: Option<Typer>)
    decreases source, 1
  {
    match source
    case None => true
    case Some(t) => Linear(t)
  }

  ghost predicate LinearPattern(t: Option<Transformer>)
    decreases t, 1
  {
    match t
    case Some(Without(m)) => Linear(m)
    case _ => true
  }

  ghost predicate LinearPatterns(ts: seq<Option<Transformer>>)
    decreases ts, 1
  {
    ts != [] ==>
      var init, last := ts[..|ts| - 1], ts[|ts| - 1];
      LinearPatterns(init) && LinearPattern(last) && PatternRefsAll(init) !! PatternRefs(last)
  }

  // ----- frames: meaning depends on the touched maps only -----

  ghost predicate SameOn(refs: set<PathMap>, s: Snapshot, s': Snapshot) {
    forall o :: o in refs ==> At(s, o) == At(s', o)
  }

  lemma {:induction false} DenFrame(t: Typer, glob: Glob, s: Snapshot, s': Snapshot, ty: MountType)
    requires SameOn(Refs(t), s, s')
    ensures Den(t, glob, s, ty) == Den(t, glob, s', ty)
    decreases t, 2
  {
    match t
    case Raw(_) =>
    case Merge(sources) => DenAllFrame(sources, glob, s, s', ty);
    case Transform(input, ts) =>
      DenFrame(input, glob, s, s', ty);
      forall path: string ensures PassesAll(ts, glob, s, ty)(path) == PassesAll(ts, glob, s', ty)(path) {
        AllPassFrame(ts, glob, s, s', ty, path);
      }
      KeepSame(Den(input, glob, s, ty), PassesAll(ts, glob, s, ty), PassesAll(ts, glob, s', ty));
  }

  lemma {:induction false} DenAllFrame(sources: seq<Option<Typer>>, glob: Glob, s: Snapshot, s': Snapshot,
      ty: MountType)
    requires SameOn(RefsAll(sources), s, s')
    ensures DenAll(sources, glob, s, ty) == DenAll(sources, glob, s', ty)
    decreases sources, 1
  {
    if sources != [] {
      DenAllFrame(sources[..|sources| - 1], glob, s, s', ty);
      DenOneFrame(sources[|sources| - 1], glob, s, s', ty);
    }
  }

  lemma {:induction false} DenOneFrame(source: Option<Typer>, glob: Glob, s: Snapshot, s': Snapshot, ty: MountType)
    requires SameOn(RefsOne(source), s, s')
    ensures DenOne(source, glob, s, ty) == DenOne(source, glob, s', ty)
    decreases source, 1
  {
    match source
    case None =>
    case Some(t) => DenFrame(t, glob, s, s', ty);
  }

  lemma {:induction false} PassFrame(t: Option<Transformer>, glob: Glob, s: Snapshot, s': Snapshot, ty: MountType,
      path: string)
    requires SameOn(PatternRefs(t), s, s')
    ensures Passes(t, glob, s, ty, path) == Passes(t, glob, s', ty, path)
    decreases t, 1
  {
    match t
    case Some(Without(m)) => DenFrame(m, glob, s, s', ty);
    case _ =>
  }

  lemma {:induction false} AllPassFrame(ts: seq<Option<Transformer>>, glob: Glob, s: Snapshot, s': Snapshot,
      ty: MountType, path: string)
    requires SameOn(PatternRefsAll(ts), s, s')
    ensures AllPass(ts, glob, s, ty, path) == AllPass(ts, glob, s', ty, path)
    decreases ts, 1
  {
    if ts != [] {
      AllPassFrame(ts[..|ts| - 1], glob, s, s', ty, path);
      PassFrame(ts[|ts| - 1], glob, s, s', ty, path);
    }
  }

  // ----- the algebra of filters -----

  function BaseOf(t: Typer): Typer { if t.Transform? then BaseOf(t.input) else t }

  /** Whether every transformer stacked on the base lets a path through. */
  ghost predicate Kept(t: Typer, glob: Glob, s: Snapshot, ty: MountType, path: string) {
    t.Transform? ==> Kept(t.input, glob, s, ty, path) && AllPass(t.ts, glob, s, ty, path)
  }

  ghost function KeptBy(t: Typer, glob: Glob, s: Snapshot, ty: MountType): string -> bool {
    path => Kept(t, glob, s, ty, path)
  }

  /** A stack of transforms is one filter on the base. */
  lemma {:induction false} NormalForm(t: Typer, glob: Glob, s: Snapshot, ty: MountType)
    ensures Den(t, glob, s, ty) == Keep(Den(BaseOf(t), glob, s, ty), KeptBy(t, glob, s, ty))
  {
    var base := Den(BaseOf(t), glob, s, ty);
    match t
    case Transform(input, ts) =>
      NormalForm(input, glob, s, ty);
      KeepTwice(base, KeptBy(input, glob, s, ty), PassesAll(ts, glob, s, ty), KeptBy(t, glob, s, ty));
    case _ =>
      KeepAll(base, KeptBy(t, glob, s, ty));
  }

  lemma {:induction false} AllPassMembers(ts: seq<Option<Transformer>>, glob: Glob, s: Snapshot, ty: MountType,
      path: string)
    ensures AllPass(ts, glob, s, ty, path) <==> forall i :: 0 <= i < |ts| ==> Passes(ts[i], glob, s, ty, path)
  {
    if ts != [] {
      var k := |ts| - 1;
      AllPassMembers(ts[..k], glob, s, ty, path);
      assert forall i :: 0 <= i < k ==> ts[..k][i] == ts[i];
    }
  }

  /** Transformers may be reordered and repeated. */
  lemma {:induction false} FiltersCommute(input: Typer, ts: seq<Option<Transformer>>, ts': seq<Option<Transformer>>,
      glob: Glob, s: Snapshot, ty: MountType)
    requires forall t :: t in ts <==> t in ts'
    ensures Den(Transform(input, ts), glob, s, ty) == Den(Transform(input, ts'), glob, s, ty)
  {
    forall path: string ensures PassesAll(ts, glob, s, ty)(path) == PassesAll(ts', glob, s, ty)(path) {
      AllPassMembers(ts, glob, s, ty, path);
      AllPassMembers(ts', glob, s, ty, path);
      assert forall i :: 0 <= i < |ts| ==> ts[i] in ts';
      assert forall i :: 0 <= i < |ts'| ==> ts'[i] in ts;
    }
    KeepSame(Den(input, glob, s, ty), PassesAll(ts, glob, s, ty), PassesAll(ts', glob, s, ty));
  }

  lemma {:induction false} AllPassAppend(ts: seq<Option<Transformer>>, ts': seq<Option<Transformer>>, glob: Glob,
      s: Snapshot, ty: MountType, path: string)
    ensures AllPass(ts + ts', glob, s, ty, path) <==> AllPass(ts, glob, s, ty, path) && AllPass(ts', glob, s, ty, path)
  {
    if ts' == [] {
      assert ts + ts' == ts;
    } else {
      var k := |ts'| - 1;
      AllPassAppend(ts, ts'[..k], glob, s, ty, path);
      assert (ts + ts')[..|ts| + k] == ts + ts'[..k];
    }
  }

  /** Stacking transforms is listing their transformers together. */
  lemma {:induction false} StackingIsAppending(input: Typer, ts: seq<Option<Transformer>>,
      ts': seq<Option<Transformer>>, glob: Glob, s: Snapshot, ty: MountType)
    ensures Den(Transform(Transform(input, ts), ts'), glob, s, ty) == Den(Transform(input, ts + ts'), glob, s, ty)
  {
    var both := PassesAll(ts + ts', glob, s, ty);
    forall path: string ensures both(path) <==> PassesAll(ts, glob, s, ty)(path) && PassesAll(ts', glob, s, ty)(path) {
      AllPassAppend(ts, ts', glob, s, ty, path);
    }
    KeepTwice(Den(input, glob, s, ty), PassesAll(ts, glob, s, ty), PassesAll(ts', glob, s, ty), both);
  }

  /** Each source transformed on its own; nil sources stay nil. */
  function TransformEach(sources: seq<Option<Typer>>, ts: seq<Option<Transformer>>): seq<Option<Typer>> {
    if sources == [] then []
    else
      var last := sources[|sources| - 1];
      TransformEach(sources[..|sources| - 1], ts) + [if last.None? then None else Some(Transform(last.value, ts))]
  }

  /** Filtering a merge is merging filtered sources, order within a type included. */
  lemma {:induction false} MergeDistributes(sources: seq<Option<Typer>>, ts: seq<Option<Transformer>>, glob: Glob,
      s: Snapshot, ty: MountType)
    ensures Den(Transform(Merge(sources), ts), glob, s, ty) == Den(Merge(TransformEach(sources, ts)), glob, s, ty)
  {
    if sources == [] {
      assert Den(Merge(sources), glob, s, ty) == DenAll(sources, glob, s, ty) == [];
    } else {
      var init, last := sources[..|sources| - 1], sources[|sources| - 1];
      MergeDistributes(init, ts, glob, s, ty);
      KeepAppend(DenAll(init, glob, s, ty), DenOne(last, glob, s, ty), PassesAll(ts, glob, s, ty));
      var each := TransformEach(sources, ts);
      assert each[..|each| - 1] == TransformEach(init, ts);
      var p := PassesAll(ts, glob, s, ty);
      assert DenOne(each[|each| - 1], glob, s, ty) == Keep(DenOne(last, glob, s, ty), p) by {
        match last
        case None =>
        case Some(t) => assert each[|each| - 1] == Some(Transform(t, ts));
      }
      assert Den(Transform(Merge(sources), ts), glob, s, ty) == Keep(DenAll(sources, glob, s, ty), p);
      assert Den(Merge(each), glob, s, ty) == DenAll(each, glob, s, ty);
    }
  }

  // ----- evaluation -----

  ghost function Snap(world: set<PathMap>): Snapshot
    reads world
  {
    map o | o in world :: o.lists
  }

  method KeepPaths(paths: seq<string>, keep: string -> bool) returns (kept: seq<string>)
    ensures kept == Keep(paths, keep)
  {
    kept := [];
    for i := 0 to |paths|
      invariant kept == Keep(paths[..i], keep)
    {
      KeepSnoc(paths[..i], paths[i], keep);
      assert paths[..i + 1] == paths[..i] + [paths[i]];
      if keep(paths[i]) { kept := kept + [paths[i]]; }
    }
    assert paths[..|paths|] == paths;
  }

  function FilterKeeps(filters: map<MountType, Filter>, ty: MountType): string -> bool {
    path => ty in filters ==> filters[ty].Matcher? && !filters[ty].matches(path)
  }

  /** Overwrites the lists of `m` in place, in whatever order the filters come. */
  method ApplyByType(filters: map<MountType, Filter>, m: PathMap)
    modifies m
    ensures forall ty :: Get(m.lists, ty) == Keep(Get(old(m.lists), ty), FilterKeeps(filters, ty))
  {
    hide Keep;
    ghost var before := m.lists;
    var todo := filters.Keys;
    forall ty | ty !in filters ensures Keep(Get(before, ty), FilterKeeps(filters, ty)) == Get(before, ty) {
      KeepAll(Get(before, ty), FilterKeeps(filters, ty));
    }
    while todo != {}
      invariant todo <= filters.Keys
      invariant forall ty :: ty in todo ==> Get(m.lists, ty) == Get(before, ty)
      invariant forall ty :: ty !in todo ==> Get(m.lists, ty) == Keep(Get(before, ty), FilterKeeps(filters, ty))
      decreases todo
    {
      var ty :| ty in todo;
      var paths := Get(m.lists, ty);
      if |paths| != 0 {
        var kept := [];
        if filters[ty].Matcher? {
          kept := KeepPaths(paths, FilterKeeps(filters, ty));
        } else {
          KeepNone(paths, FilterKeeps(filters, ty));
        }
        m.lists := m.lists[ty := kept];
      }
      todo := todo - {ty};
    }
  }

  // ----- pure steps of an evaluation -----

  ghost function PassesBy(t: Option<Transformer>, glob: Glob, s: Snapshot, ty: MountType): string -> bool {
    path => Passes(t, glob, s, ty, path)
  }

  lemma {:induction false} LinearPrefix(ts: seq<Option<Transformer>>, i: nat)
    requires LinearPatterns(ts) && i < |ts|
    ensures LinearPatterns(ts[..i]) && LinearPattern(ts[i]) && PatternRefsAll(ts[..i]) !! PatternRefs(ts[i])
    ensures PatternRefsAll(ts[..i]) + PatternRefs(ts[i]) <= PatternRefsAll(ts)
    ensures PatternRefsAll(ts[..i + 1]) == PatternRefsAll(ts[..i]) + PatternRefs(ts[i])
  {
    var k := |ts| - 1;
    assert ts[..i + 1][..i] == ts[..i];
    if i < k {
      LinearPrefix(ts[..k], i);
      assert ts[..k][..i] == ts[..i] && ts[..k][..i + 1] == ts[..i + 1];
    } else {
      assert ts[..i + 1] == ts;
    }
  }

  lemma {:induction false} LinearSourcesPrefix(sources: seq<Option<Typer>>, i: nat)
    requires LinearAll(sources) && i < |sources|
    ensures LinearAll(sources[..i]) && LinearOne(sources[i]) && RefsAll(sources[..i]) !! RefsOne(sources[i])
    ensures RefsAll(sources[..i]) + RefsOne(sources[i]) <= RefsAll(sources)
    ensures RefsAll(sources[..i + 1]) == RefsAll(sources[..i]) + RefsOne(sources[i])
  {
    var k := |sources| - 1;
    assert sources[..i + 1][..i] == sources[..i];
    if i < k {
      LinearSourcesPrefix(sources[..k], i);
      assert sources[..k][..i] == sources[..i] && sources[..k][..i + 1] == sources[..i + 1];
    } else {
      assert sources[..i + 1] == sources;
    }
  }

  ghost predicate SamePass(t: Option<Transformer>, glob: Glob, s: Snapshot, s': Snapshot) {
    forall ty: MountType, path: string :: Passes(t, glob, s', ty, path) == Passes(t, glob, s, ty, path)
  }

  ghost predicate SamePassAll(ts: seq<Option<Transformer>>, glob: Glob, s: Snapshot, s': Snapshot) {
    forall ty: MountType, path: string :: AllPass(ts, glob, s', ty, path) == AllPass(ts, glob, s, ty, path)
  }

  lemma {:induction false} AllPassSnoc(ts: seq<Option<Transformer>>, i: nat, glob: Glob, s: Snapshot, ty: MountType,
      path: string)
    requires i < |ts|
    ensures AllPass(ts[..i + 1], glob, s, ty, path) <==> AllPass(ts[..i], glob, s, ty, path) && Passes(ts[i], glob, s, ty, path)
  {
    var u := ts[..i + 1];
    assert u[..|u| - 1] == ts[..i] && u[|u| - 1] == ts[i];
  }

  /** One more transformer applied, its patterns untouched until now. */
  lemma OneMorePass(ts: seq<Option<Transformer>>, i: nat, glob: Glob, s0: Snapshot, s: Snapshot, s': Snapshot)
    requires i < |ts|
    requires SameOn(PatternRefs(ts[i]), s0, s) && SameOn(PatternRefsAll(ts[..i]), s, s')
    requires SamePassAll(ts[..i], glob, s0, s) && SamePass(ts[i], glob, s, s')
    ensures SamePass(ts[i], glob, s0, s) && SamePassAll(ts[..i + 1], glob, s0, s')
  {
    forall ty: MountType, path: string
      ensures Passes(ts[i], glob, s, ty, path) == Passes(ts[i], glob, s0, ty, path)
      ensures AllPass(ts[..i + 1], glob, s', ty, path) == AllPass(ts[..i + 1], glob, s0, ty, path)
    {
      PassFrame(ts[i], glob, s0, s, ty, path);
      AllPassFrame(ts[..i], glob, s, s', ty, path);
      assert Passes(ts[i], glob, s', ty, path) == Passes(ts[i], glob, s, ty, path);
      assert AllPass(ts[..i], glob, s, ty, path) == AllPass(ts[..i], glob, s0, ty, path);
      AllPassSnoc(ts, i, glob, s', ty, path);
      AllPassSnoc(ts, i, glob, s0, ty, path);
    }
    var next := ts[..i + 1];
    assert SamePassAll(next, glob, s0, s');
  }

  lemma {:induction false} NoFilters(paths: seq<string>, glob: Glob, s: Snapshot, ty: MountType)
    ensures Keep(paths, PassesAll([], glob, s, ty)) == paths
  {
    KeepAll(paths, PassesAll([], glob, s, ty));
  }

  lemma {:induction false} KeepPasses(paths: seq<string>, ts: seq<Option<Transformer>>, glob: Glob, s: Snapshot,
      s': Snapshot, ty: MountType)
    requires SamePassAll(ts, glob, s, s')
    ensures Keep(paths, PassesAll(ts, glob, s', ty)) == Keep(paths, PassesAll(ts, glob, s, ty))
  {
    forall path: string ensures PassesAll(ts, glob, s', ty)(path) == PassesAll(ts, glob, s, ty)(path) {
      assert AllPass(ts, glob, s', ty, path) == AllPass(ts, glob, s, ty, path);
    }
    KeepSame(paths, PassesAll(ts, glob, s', ty), PassesAll(ts, glob, s, ty));
  }

  /** One more source merged, its maps untouched until now. */
  lemma {:induction false} OneMoreSource(sources: seq<Option<Typer>>, i: nat, glob: Glob, s0: Snapshot, s: Snapshot,
      s': Snapshot, ty: MountType)
    requires i < |sources|
    requires SameOn(RefsOne(sources[i]), s, s0) && SameOn(RefsAll(sources[..i]), s, s')
    requires DenAll(sources[..i], glob, s, ty) == DenAll(sources[..i], glob, s0, ty)
    requires DenOne(sources[i], glob, s', ty) == DenOne(sources[i], glob, s, ty)
    ensures DenAll(sources[..i + 1], glob, s', ty) == DenAll(sources[..i + 1], glob, s0, ty)
    ensures DenAll(sources[..i + 1], glob, s0, ty) == DenAll(sources[..i], glob, s0, ty) + DenOne(sources[i], glob, s, ty)
  {
    var next := sources[..i + 1];
    assert next[..|next| - 1] == sources[..i] && next[|next| - 1] == sources[i];
    DenOneFrame(sources[i], glob, s, s0, ty);
    DenAllFrame(sources[..i], glob, s, s', ty);
  }

  lemma {:induction false} OneMoreKeep(ts: seq<Option<Transformer>>, i: nat, glob: Glob, s0: Snapshot, s: Snapshot,
      ty: MountType, first: seq<string>)
    requires i < |ts| && SamePass(ts[i], glob, s0, s)
    ensures Keep(Keep(first, PassesAll(ts[..i], glob, s0, ty)), PassesBy(ts[i], glob, s, ty))
            == Keep(first, PassesAll(ts[..i + 1], glob, s0, ty))
  {
    var p, q, both := PassesAll(ts[..i], glob, s0, ty), PassesBy(ts[i], glob, s, ty), PassesAll(ts[..i + 1], glob, s0, ty);
    forall path: string ensures both(path) <==> p(path) && q(path) {
      AllPassSnoc(ts, i, glob, s0, ty, path);
    }
    KeepTwice(first, p, q, both);
  }

  ghost predicate Yields(t: Typer, glob: Glob, s: Snapshot, m: Lists) {
    forall ty :: Get(m, ty) == Den(t, glob, s, ty)
  }

  /** What `t` means, and which paths its filters keep, is the same in both snapshots. */
  ghost predicate Unshaken(t: Typer, glob: Glob, s: Snapshot, s': Snapshot) {
    && (forall ty :: Den(t, glob, s', ty) == Den(t, glob, s, ty))
    && (forall ty: MountType, path: string :: Kept(t, glob, s', ty, path) == Kept(t, glob, s, ty, path))
  }

  // ----- the methods -----

  /** Appends list by list, in whatever order the types come. */
  method AppendLists(merged: PathMap, from: Lists)
    modifies merged
    ensures forall ty :: Get(merged.lists, ty) == Get(old(merged.lists), ty) + Get(from, ty)
  {
    ghost var before := merged.lists;
    var todo := from.Keys;
    while todo != {}
      invariant todo <= from.Keys
      invariant forall ty :: ty in todo ==> Get(merged.lists, ty) == Get(before, ty)
      invariant forall ty :: ty !in todo ==> Get(merged.lists, ty) == Get(before, ty) + Get(from, ty)
      decreases todo
    {
      var ty :| ty in todo;
      merged.lists := merged.lists[ty := Get(merged.lists, ty) + from[ty]];
      todo := todo - {ty};
    }
  }

  method ApplyIgnoreSymlinks(ignored: seq<string>, m: PathMap, glob: Glob, ghost s: Snapshot)
    modifies m
    ensures forall ty :: Get(m.lists, ty) == Keep(Get(old(m.lists), ty), PassesBy(Some(IgnoreSymlinks(ignored)), glob, s, ty))
  {
    ghost var before, t := m.lists, Some(IgnoreSymlinks(ignored));
    if Sym in m.lists {
      var keep := path => !AnyMatches(glob, ignored, path);
      var kept := KeepPaths(m.lists[Sym], keep);
      m.lists := m.lists[Sym := kept];
      KeepSame(Get(before, Sym), keep, PassesBy(t, glob, s, Sym));
    }
    forall ty | ty != Sym { KeepAll(Get(before, ty), PassesBy(t, glob, s, ty)); }
  }

  function WithoutFilters(lists: Lists, glob: Glob): map<MountType, Filter> {
    map ty | ty in lists :: Matcher(path => AnyMatches(glob, lists[ty], path))
  }

  lemma {:induction false} WithoutKeeps(patterns: Typer, lists: Lists, glob: Glob, s: Snapshot, ty: MountType,
      paths: seq<string>)
    requires Yields(patterns, glob, s, lists)
    ensures Keep(paths, FilterKeeps(WithoutFilters(lists, glob), ty)) == Keep(paths, PassesBy(Some(Without(patterns)), glob, s, ty))
  {
    var p, q := FilterKeeps(WithoutFilters(lists, glob), ty), PassesBy(Some(Without(patterns)), glob, s, ty);
    forall path: string ensures p(path) == q(path) {
      assert Get(lists, ty) == Den(patterns, glob, s, ty);
    }
    KeepSame(paths, p, q);
  }

  method ApplyWithout(patterns: Typer, m: PathMap, glob: Glob, ghost world: set<PathMap>)
    requires Linear(patterns) && Refs(patterns) <= world && m !in Refs(patterns)
    modifies m, Refs(patterns)
    ensures forall ty :: Get(m.lists, ty) ==
              Keep(Get(old(m.lists), ty), PassesBy(Some(Without(patterns)), glob, old(Snap(world)), ty))
    ensures forall ty :: Den(patterns, glob, Snap(world), ty) == Den(patterns, glob, old(Snap(world)), ty)
    decreases patterns, 3
  {
    ghost var s, before := Snap(world), m.lists;
    var p := MountSpecPathsByType(patterns, glob, world);
    ghost var evaluated := Snap(world);
    var lists := p.lists;
    ApplyByType(WithoutFilters(lists, glob), m);
    forall ty
      ensures Get(m.lists, ty) == Keep(Get(before, ty), PassesBy(Some(Without(patterns)), glob, s, ty))
      ensures Den(patterns, glob, Snap(world), ty) == Den(patterns, glob, s, ty)
    {
      WithoutKeeps(patterns, lists, glob, s, ty, Get(before, ty));
      DenFrame(patterns, glob, evaluated, Snap(world), ty);
    }
  }

  method ApplyOne(t: Option<Transformer>, m: PathMap, glob: Glob, ghost world: set<PathMap>)
    requires LinearPattern(t) && PatternRefs(t) <= world && m !in PatternRefs(t)
    modifies m, PatternRefs(t)
    ensures forall ty :: Get(m.lists, ty) == Keep(Get(old(m.lists), ty), PassesBy(t, glob, old(Snap(world)), ty))
    ensures SamePass(t, glob, old(Snap(world)), Snap(world))
    decreases t, 0
  {
    ghost var s := Snap(world);
    ghost var before := m.lists;
    match t
    case None =>
      forall ty { KeepAll(Get(before, ty), PassesBy(t, glob, s, ty)); }
    case Some(ByType(filters)) =>
      ApplyByType(filters, m);
      forall ty ensures Get(m.lists, ty) == Keep(Get(before, ty), PassesBy(t, glob, s, ty)) {
        KeepSame(Get(before, ty), FilterKeeps(filters, ty), PassesBy(t, glob, s, ty));
      }
    case Some(IgnoreSymlinks(ignored)) => ApplyIgnoreSymlinks(ignored, m, glob, s);
    case Some(Without(patterns)) => ApplyWithout(patterns, m, glob, world);
  }

  /** Applies the transformers in turn, each overwriting `m`. */
  method ApplyAll(ts: seq<Option<Transformer>>, m: PathMap, glob: Glob, ghost world: set<PathMap>)
    requires LinearPatterns(ts) && PatternRefsAll(ts) <= world && m !in PatternRefsAll(ts)
    modifies m, PatternRefsAll(ts)
    ensures forall ty :: Get(m.lists, ty) == Keep(Get(old(m.lists), ty), PassesAll(ts, glob, old(Snap(world)), ty))
    ensures SamePassAll(ts, glob, old(Snap(world)), Snap(world))
    decreases ts, 1
  {
    ghost var s0, before := Snap(world), m.lists;
    assert ts[..0] == [];
    forall ty ensures Keep(Get(before, ty), PassesAll(ts[..0], glob, s0, ty)) == Get(before, ty) {
      NoFilters(Get(before, ty), glob, s0, ty);
    }
    for i := 0 to |ts|
      invariant forall ty :: Get(m.lists, ty) == Keep(Get(before, ty), PassesAll(ts[..i], glob, s0, ty))
      invariant SamePassAll(ts[..i], glob, s0, Snap(world))
      invariant forall o :: o in world && o != m && o !in PatternRefsAll(ts[..i]) ==> o.lists == old(o.lists)
    {
      LinearPrefix(ts, i);
      ghost var s := Snap(world);
      ghost var now := m.lists;
      ApplyOne(ts[i], m, glob, world);
      OneMorePass(ts, i, glob, s0, s, Snap(world));
      forall ty ensures Get(m.lists, ty) == Keep(Get(before, ty), PassesAll(ts[..i + 1], glob, s0, ty)) {
        OneMoreKeep(ts, i, glob, s0, s, ty, Get(before, ty));
      }
    }
    assert ts[..|ts|] == ts;
  }

  /** The lists of one source; none for a nil source. */
  method EvaluateSource(source: Option<Typer>, glob: Glob, ghost world: set<PathMap>) returns (lists: Lists)
    requires LinearOne(source) && RefsOne(source) <= world
    modifies RefsOne(source)
    ensures forall ty :: Get(lists, ty) == DenOne(source, glob, old(Snap(world)), ty)
    ensures forall ty :: DenOne(source, glob, Snap(world), ty) == DenOne(source, glob, old(Snap(world)), ty)
    decreases source, 3
  {
    match source
    case None => lists := map[];
    case Some(t) =>
      var m := MountSpecPathsByType(t, glob, world);
      lists := m.lists;
  }

  /** `lists` holds what the sources were at `s0`, and that is what they still are. */
  ghost predicate Merged(sources: seq<Option<Typer>>, glob: Glob, s0: Snapshot, s: Snapshot, lists: Lists) {
    forall ty :: Get(lists, ty) == DenAll(sources, glob, s0, ty) == DenAll(sources, glob, s, ty)
  }

  lemma {:induction false} OneMoreMerged(sources: seq<Option<Typer>>, i: nat, glob: Glob, s0: Snapshot, s: Snapshot,
      s': Snapshot, before: Lists, lists: Lists, after: Lists)
    requires i < |sources|
    requires SameOn(RefsOne(sources[i]), s, s0) && SameOn(RefsAll(sources[..i]), s, s')
    requires Merged(sources[..i], glob, s0, s, before)
    requires forall ty :: DenOne(sources[i], glob, s', ty) == DenOne(sources[i], glob, s, ty) == Get(lists, ty)
    requires forall ty :: Get(after, ty) == Get(before, ty) + Get(lists, ty)
    ensures Merged(sources[..i + 1], glob, s0, s', after)
  {
    forall ty
      ensures Get(after, ty) == DenAll(sources[..i + 1], glob, s0, ty) == DenAll(sources[..i + 1], glob, s', ty)
    {
      assert DenAll(sources[..i], glob, s, ty) == DenAll(sources[..i], glob, s0, ty);
      OneMoreSource(sources, i, glob, s0, s, s', ty);
    }
  }

  method MergeOne(sources: seq<Option<Typer>>, i: nat, merged: PathMap, glob: Glob, ghost world: set<PathMap>,
      ghost s0: Snapshot)
    requires i < |sources| && LinearAll(sources) && RefsAll(sources) <= world && merged !in world
    requires Merged(sources[..i], glob, s0, Snap(world), merged.lists)
    requires SameOn(RefsAll(sources) - RefsAll(sources[..i]), Snap(world), s0)
    modifies merged, RefsOne(sources[i])
    ensures Merged(sources[..i + 1], glob, s0, Snap(world), merged.lists)
    decreases sources, 0
  {
    hide DenAll, DenOne, Get;
    LinearSourcesPrefix(sources, i);
    ghost var s, before := Snap(world), merged.lists;
    var lists := EvaluateSource(sources[i], glob, world);
    ghost var s' := Snap(world);
    AppendLists(merged, lists);
    OneMoreMerged(sources, i, glob, s0, s, s', before, lists, merged.lists);
  }

  method MergeSources(sources: seq<Option<Typer>>, glob: Glob, ghost world: set<PathMap>) returns (merged: PathMap)
    requires LinearAll(sources) && RefsAll(sources) <= world
    modifies RefsAll(sources)
    ensures fresh(merged)
    ensures Merged(sources, glob, old(Snap(world)), Snap(world), merged.lists)
    decreases sources, 1
  {
    merged := new PathMap(map[]);
    ghost var s0 := Snap(world);
    for i := 0 to |sources|
      invariant fresh(merged)
      invariant Merged(sources[..i], glob, s0, Snap(world), merged.lists)
      invariant forall o :: o in world && o !in RefsAll(sources[..i]) ==> o.lists == old(o.lists)
    {
      LinearSourcesPrefix(sources, i);
      MergeOne(sources, i, merged, glob, world, s0);
    }
    assert sources[..|sources|] == sources;
  }

  /** The pattern maps of the transformers stacked on the base. */
  ghost function ChainRefs(t: Typer): set<PathMap> {
    if t.Transform? then ChainRefs(t.input) + PatternRefsAll(t.ts) else {}
  }

  lemma {:induction false} ChainWithin(t: Typer)
    ensures ChainRefs(t) <= Refs(t)
    ensures BaseOf(t).Raw? ==> BaseOf(t).source in Refs(t)
    ensures BaseOf(t).Raw? && Linear(t) ==> BaseOf(t).source !in ChainRefs(t)
  {
    if t.Transform? { ChainWithin(t.input); }
  }

  lemma {:induction false} KeptFrame(t: Typer, glob: Glob, s: Snapshot, s': Snapshot, ty: MountType, path: string)
    requires SameOn(ChainRefs(t), s, s')
    ensures Kept(t, glob, s, ty, path) == Kept(t, glob, s', ty, path)
  {
    if t.Transform? {
      KeptFrame(t.input, glob, s, s', ty, path);
      AllPassFrame(t.ts, glob, s, s', ty, path);
    }
  }

  /** Overwriting the source with its filtered lists leaves the meaning of the pipeline as it was. */
  lemma {:induction false} OverwrittenSource(input: Typer, ts: seq<Option<Transformer>>, glob: Glob, s0: Snapshot,
      s1: Snapshot, s2: Snapshot, ty: MountType, m1: Lists)
    requires Linear(input) && BaseOf(input).Raw?
    requires Get(m1, ty) == Den(input, glob, s0, ty) && Unshaken(input, glob, s0, s1)
    requires SameOn(ChainRefs(input), s1, s2) && SamePassAll(ts, glob, s1, s2)
    requires Get(At(s2, BaseOf(input).source), ty) == Keep(Get(m1, ty), PassesAll(ts, glob, s1, ty))
    ensures Den(Transform(input, ts), glob, s2, ty) == Keep(Get(m1, ty), PassesAll(ts, glob, s1, ty))
  {
    var kept := Keep(Get(m1, ty), PassesAll(ts, glob, s1, ty));
    NormalForm(input, glob, s0, ty);
    NormalForm(input, glob, s2, ty);
    forall path | path in kept ensures KeptBy(input, glob, s2, ty)(path) && PassesAll(ts, glob, s2, ty)(path) {
      KeptFrame(input, glob, s1, s2, ty, path);
      assert KeptBy(input, glob, s0, ty)(path);
      assert Kept(input, glob, s1, ty, path) == Kept(input, glob, s0, ty, path);
      assert AllPass(ts, glob, s2, ty, path) == AllPass(ts, glob, s1, ty, path);
    }
    KeepAll(kept, KeptBy(input, glob, s2, ty));
    KeepAll(kept, PassesAll(ts, glob, s2, ty));
  }

  /** An input that answered with a fresh map keeps its own meaning throughout. */
  lemma {:induction false} FreshSource(input: Typer, ts: seq<Option<Transformer>>, glob: Glob, s0: Snapshot,
      s1: Snapshot, s2: Snapshot, ty: MountType, m1: Lists)
    requires Get(m1, ty) == Den(input, glob, s0, ty) && Unshaken(input, glob, s0, s1)
    requires SameOn(Refs(input), s1, s2) && SamePassAll(ts, glob, s1, s2)
    ensures Den(Transform(input, ts), glob, s2, ty) == Keep(Get(m1, ty), PassesAll(ts, glob, s1, ty))
  {
    DenFrame(input, glob, s1, s2, ty);
    KeepPasses(Get(m1, ty), ts, glob, s1, s2, ty);
  }

  lemma {:induction false} SamePassFrame(ts: seq<Option<Transformer>>, glob: Glob, s: Snapshot, s': Snapshot)
    requires SameOn(PatternRefsAll(ts), s, s')
    ensures SamePassAll(ts, glob, s, s')
  {
    forall ty: MountType, path: string ensures AllPass(ts, glob, s', ty, path) == AllPass(ts, glob, s, ty, path) {
      AllPassFrame(ts, glob, s, s', ty, path);
    }
  }

  lemma {:induction false} TransformKept(input: Typer, ts: seq<Option<Transformer>>, glob: Glob, s0: Snapshot,
      s1: Snapshot, s2: Snapshot, ty: MountType, path: string)
    requires Unshaken(input, glob, s0, s1) && SameOn(PatternRefsAll(ts), s0, s1)
    requires SameOn(ChainRefs(input), s1, s2) && SamePassAll(ts, glob, s1, s2)
    ensures Kept(Transform(input, ts), glob, s2, ty, path) == Kept(Transform(input, ts), glob, s0, ty, path)
    ensures AllPass(ts, glob, s1, ty, path) == AllPass(ts, glob, s0, ty, path)
  {
    KeptFrame(input, glob, s1, s2, ty, path);
    AllPassFrame(ts, glob, s0, s1, ty, path);
    assert AllPass(ts, glob, s2, ty, path) == AllPass(ts, glob, s1, ty, path);
    assert Kept(input, glob, s1, ty, path) == Kept(input, glob, s0, ty, path);
  }

  /** Evaluates a transform: the input first, then the filters on what it answered with. */
  method EvaluateTransform(input: Typer, ts: seq<Option<Transformer>>, glob: Glob, ghost world: set<PathMap>)
      returns (m: PathMap)
    requires Linear(Transform(input, ts)) && Refs(Transform(input, ts)) <= world
    modifies Refs(Transform(input, ts))
    ensures Yields(Transform(input, ts), glob, old(Snap(world)), m.lists)
    ensures Unshaken(Transform(input, ts), glob, old(Snap(world)), Snap(world))
    ensures if BaseOf(input).Raw? then m == BaseOf(input).source else fresh(m)
    decreases Transform(input, ts), 1
  {
    hide Kept, PassesAll, AllPass;
    ghost var t, s0 := Transform(input, ts), Snap(world);
    ChainWithin(input);
    m := MountSpecPathsByType(input, glob, world);
    ghost var s1, m1 := Snap(world), m.lists;
    ApplyAll(ts, m, glob, world);
    ghost var s2 := Snap(world);
    SamePassFrame(ts, glob, s0, s1);
    forall ty
      ensures Get(m.lists, ty) == Den(t, glob, s0, ty) == Den(t, glob, s2, ty)
    {
      KeepPasses(Get(m1, ty), ts, glob, s0, s1, ty);
      if BaseOf(input).Raw? {
        OverwrittenSource(input, ts, glob, s0, s1, s2, ty, m1);
      } else {
        FreshSource(input, ts, glob, s0, s1, s2, ty, m1);
      }
    }
    forall ty: MountType, path: string ensures Kept(t, glob, s2, ty, path) == Kept(t, glob, s0, ty, path) {
      TransformKept(input, ts, glob, s0, s1, s2, ty, path);
    }
  }

  /** Evaluates a pipeline: a raw map answers with itself. */
  method MountSpecPathsByType(t: Typer, glob: Glob, ghost world: set<PathMap>) returns (m: PathMap)
    requires Linear(t) && Refs(t) <= world
    modifies Refs(t)
    ensures Yields(t, glob, old(Snap(world)), m.lists)
    ensures Unshaken(t, glob, old(Snap(world)), Snap(world))
    ensures if BaseOf(t).Raw? then m == BaseOf(t).source else fresh(m)
    decreases t, 2
  {
    match t
    case Raw(o) => m := o;
    case Merge(sources) => m := MergeSources(sources, glob, world);
    case Transform(input, ts) => m := EvaluateTransform(input, ts, glob, world);
  }

  /** However often a pipeline is evaluated, each answer is what it meant at the start. */
  method EvaluateRepeatedly(t: Typer, times: nat, glob: Glob, ghost world: set<PathMap>) returns (m: PathMap)
    requires Linear(t) && Refs(t) <= world && times > 0
    modifies Refs(t)
    ensures Yields(t, glob, old(Snap(world)), m.lists)
    ensures Unshaken(t, glob, old(Snap(world)), Snap(world))
  {
    ghost var s0 := Snap(world);
    m := MountSpecPathsByType(t, glob, world);
    for i := 1 to times
      invariant Yields(t, glob, s0, m.lists) && Unshaken(t, glob, s0, Snap(world))
    {
      m := MountSpecPathsByType(t, glob, world);
    }
  }

  // ----- one raw map for two sources -----

  lemma {:induction false} TwoSources(a: Typer, b: Typer, glob: Glob, s: Snapshot, ty: MountType)
    ensures Den(Merge([Some(a), Some(b)]), glob, s, ty) == Den(a, glob, s, ty) + Den(b, glob, s, ty)
  {
    var two := [Some(a), Some(b)];
    assert two[..1] == [Some(a)] && two[..1][..0] == [];
    assert DenAll([Some(a)], glob, s, ty) == Den(a, glob, s, ty) by { assert [Some(a)][..0] == []; }
    assert DenAll(two, glob, s, ty) == DenAll(two[..1], glob, s, ty) + DenOne(two[1], glob, s, ty);
  }

  lemma {:induction false} OnePattern(a: Option<Transformer>)
    ensures LinearPatterns([a]) == LinearPattern(a) && PatternRefsAll([a]) == PatternRefs(a)
  {
    assert [a][..0] == [];
  }

  function FilteredView(o: PathMap, filters: map<MountType, Filter>): Typer { Transform(Raw(o), [Some(ByType(filters))]) }

  lemma {:induction false} ViewIsLinear(o: PathMap, filters: map<MountType, Filter>)
    ensures Linear(FilteredView(o, filters)) && Refs(FilteredView(o, filters)) == {o}
  {
    OnePattern(Some(ByType(filters)));
  }

  lemma {:induction false} ViewMeans(o: PathMap, filters: map<MountType, Filter>, glob: Glob, s: Snapshot, ty: MountType)
    ensures var kept := Keep(Get(At(s, o), ty), FilterKeeps(filters, ty));
      && Den(FilteredView(o, filters), glob, s, ty) == kept
      && Den(Merge([Some(FilteredView(o, filters)), Some(Raw(o))]), glob, s, ty) == kept + Get(At(s, o), ty)
  {
    var t := Some(ByType(filters));
    forall path: string ensures PassesAll([t], glob, s, ty)(path) == FilterKeeps(filters, ty)(path) {
      AllPassMembers([t], glob, s, ty, path);
    }
    KeepSame(Get(At(s, o), ty), PassesAll([t], glob, s, ty), FilterKeeps(filters, ty));
    TwoSources(FilteredView(o, filters), Raw(o), glob, s, ty);
  }

  /** Reading a filtered view overwrites the map it views. */
  method ReadView(o: PathMap, filters: map<MountType, Filter>, glob: Glob) returns (lists: Lists)
    modifies o
    ensures lists == o.lists
    ensures forall ty :: Get(o.lists, ty) == Keep(Get(old(o.lists), ty), FilterKeeps(filters, ty))
  {
    hide Den, Keep, Linear, Refs, FilterKeeps, Kept;
    ViewIsLinear(o, filters);
    ghost var s := Snap({o});
    forall ty ensures Den(FilteredView(o, filters), glob, s, ty) == Keep(Get(At(s, o), ty), FilterKeeps(filters, ty)) {
      ViewMeans(o, filters, glob, s, ty);
    }
    var m := MountSpecPathsByType(FilteredView(o, filters), glob, {o});
    lists := m.lists;
  }

  method ReadRaw(o: PathMap, glob: Glob) returns (lists: Lists)
    modifies o
    ensures lists == o.lists && forall ty :: Get(o.lists, ty) == Get(old(o.lists), ty)
  {
    assert Linear(Raw(o)) && Refs(Raw(o)) == {o};
    var m := MountSpecPathsByType(Raw(o), glob, {o});
    lists := m.lists;
  }

  /**
   * Why a raw map may feed one source only: merging a filtered view of it with the map
   * itself yields the filtered lists twice, for the second source reads what the first left.
   */
  method MergeSharedSource(o: PathMap, filters: map<MountType, Filter>, glob: Glob) returns (merged: PathMap)
    modifies o
    ensures fresh(merged)
    ensures forall ty :: Get(merged.lists, ty) ==
              Keep(Get(old(o.lists), ty), FilterKeeps(filters, ty)) + Keep(Get(old(o.lists), ty), FilterKeeps(filters, ty))
    ensures forall ty ::
              Den(Merge([Some(FilteredView(o, filters)), Some(Raw(o))]), glob, old(Snap({o})), ty) ==
              Keep(Get(old(o.lists), ty), FilterKeeps(filters, ty)) + Get(old(o.lists), ty)
  {
    hide Den, Keep, FilterKeeps;
    forall ty ensures Den(Merge([Some(FilteredView(o, filters)), Some(Raw(o))]), glob, Snap({o}), ty) ==
        Keep(Get(o.lists, ty), FilterKeeps(filters, ty)) + Get(o.lists, ty)
    {
      ViewMeans(o, filters, glob, Snap({o}), ty);
    }
    merged := new PathMap(map[]);
    var first := ReadView(o, filters, glob);
    AppendLists(merged, first);
    var second := ReadRaw(o, glob);
    AppendLists(merged, second);
  }
}
