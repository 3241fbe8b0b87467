/** Following symlinks through a finite file system. */
module Symlinks {
  import opened Wrappers
  import opened Sequences
  import opened Paths

  datatype Node = File | Link(target: string)

  /** What lstat and readlink know: the names that exist, and where links point. */
  type FileSystem = map<string, Node>

  function Resolve(fs: FileSystem, filename: string): Result<string> {
    if filename !in fs then Err("failed to get file info")
    else
      match fs[filename]
      case File => Ok(filename)
      case Link(target) => Ok(target)
  }

  /** The absolute name that `filename` resolves to, if it exists. */
  function Follow(fs: FileSystem, cwd: string, filename: string): Option<string> {
    match Resolve(fs, filename)
    case Err(_) => None
    case Ok(target) => Some(if IsAbs(target) then target else Abs(cwd, JoinTwo(Dir(filename), target)))
  }

  /** A regular file leads to itself, an absolute link to its target as it is written, a missing name nowhere. */
  lemma FollowDirectly(fs: FileSystem, cwd: string, name: string, target: string)
    ensures name !in fs ==> Follow(fs, cwd, name) == None
    ensures "/" <= name && name in fs && fs[name] == File ==> Follow(fs, cwd, name) == Some(name)
    ensures "/" <= target && name in fs && fs[name] == Link(target) ==> Follow(fs, cwd, name) == Some(target)
  {
  }

  /** A relative link is resolved in the directory that holds it; "" stands for the root. */
  lemma {:induction false} FollowRelative(fs: FileSystem, cwd: string, dir: string, name: string, target: string)
    requires (dir == "" || ("/" <= dir && IsClean(dir))) && '/' !in name
    requires target != "" && !("/" <= target)
    requires dir + "/" + name in fs && fs[dir + "/" + name] == Link(target)
    ensures Follow(fs, cwd, dir + "/" + name) == Some(Clean(dir + "/" + target))
  {
    hide Clean, JoinTwo;
    DirOf(dir, name);
    if dir == "" {
      JoinTwoOf("/", target);
      CleanSkips("", "", target);
      assert "/" + "/" + target == "" + "/" + "" + "/" + target;
    } else {
      CleanKeeps(dir);
      JoinTwoOf(dir, target);
    }
    var path := Clean(dir + "/" + target);
    CleanIsClean(dir + "/" + target);
    CleanKeeps(path);
    RootedByStart(dir, target);
    CleanIsRooted(dir + "/" + target);
  }

  /** So a link that steps up once leads to a neighbour of its directory. */
  lemma {:induction false} FollowUpwards(fs: FileSystem, cwd: string, dir: string, sub: string, name: string, target: string)
    requires (dir == "" || "/" <= dir) && IsClean(dir + "/" + sub) && IsEntry(sub) && '/' !in name
    requires dir + "/" + sub + "/" + name in fs && fs[dir + "/" + sub + "/" + name] == Link("../" + target)
    ensures Follow(fs, cwd, dir + "/" + sub + "/" + name) == Some(Clean(dir + "/" + target))
  {
    hide Clean, IsClean;
    assert ("../" + target)[0] == '.' && "/" <= dir + "/" + sub;
    FollowRelative(fs, cwd, dir + "/" + sub, name, "../" + target);
    assert dir + "/" + sub + "/" + ("../" + target) == dir + "/" + sub + "/.." + "/" + target;
    CleanStepsBack(dir, sub, target);
  }

  /** The names met from `filename` on, up to the first one already seen; None if one is missing. */
  function Walk(fs: FileSystem, cwd: string, filename: string, seen: set<string>): Option<seq<string>>
    decreases |fs.Keys - seen|
  {
    match Follow(fs, cwd, filename)
    case None => None
    case Some(next) =>
      if filename in seen then Some([])
      else
        Shrinks(fs.Keys, seen, filename);
        Prepend([filename], Walk(fs, cwd, next, seen + {filename}))
  }

  lemma Shrinks(keys: set<string>, seen: set<string>, x: string)
    requires x in keys && x !in seen
    ensures |keys - (seen + {x})| < |keys - seen|
  {
    assert keys - seen == (keys - (seen + {x})) + {x};
  }

  method ResolveChain(fs: FileSystem, cwd: string, start: string) returns (r: Result<seq<string>>)
    ensures r.Ok? <==> Walk(fs, cwd, start, {}).Some?
    ensures r.Ok? ==> Walk(fs, cwd, start, {}) == Some(r.value)
  {
    var seen: set<string> := {};
    var chain: seq<string> := [];
    var filename := start;
    PrependNothing(Walk(fs, cwd, start, {}));
    while true
      invariant Walk(fs, cwd, start, {}) == Prepend(chain, Walk(fs, cwd, filename, seen))
      decreases |fs.Keys - seen|
    {
      var target := Resolve(fs, filename);
      assert chain + [] == chain;
      if target.Err? { return Err(target.message); }
      if filename in seen { return Ok(chain); }
      WalkStep(fs, cwd, filename, seen);
      Shrinks(fs.Keys, seen, filename);
      seen := seen + {filename};
      PrependOne(chain, filename, Walk(fs, cwd, Follow(fs, cwd, filename).value, seen));
      chain := chain + [filename];
      if IsAbs(target.value) {
        filename := target.value;
      } else {
        filename := Abs(cwd, JoinTwo(Dir(filename), target.value));
      }
    }
  }

  lemma {:induction false} WalkStep(fs: FileSystem, cwd: string, f: string, seen: set<string>)
    requires Follow(fs, cwd, f).Some? && f !in seen
    ensures Walk(fs, cwd, f, seen) == Prepend([f], Walk(fs, cwd, Follow(fs, cwd, f).value, seen + {f}))
  {
  }

  function Prepend(chain: seq<string>, rest: Option<seq<string>>): Option<seq<string>> {
    if rest.None? then None else Some(chain + rest.value)
  }

  lemma PrependNothing(rest: Option<seq<string>>)
    ensures Prepend([], rest) == rest
  {
    if rest.Some? { assert [] + rest.value == rest.value; }
  }

  lemma PrependOne(chain: seq<string>, x: string, rest: Option<seq<string>>)
    ensures Prepend(chain, Prepend([x], rest)) == Prepend(chain + [x], rest)
  {
    if rest.Some? { assert chain + ([x] + rest.value) == chain + [x] + rest.value; }
  }

  // ----- what a chain is -----

  /** Distinct existing names, each resolving to the next, the last back into the chain. */
  ghost predicate IsChain(fs: FileSystem, cwd: string, start: string, chain: seq<string>) {
    && chain != [] && chain[0] == start && NoDuplicates(chain)
    && (forall i :: 0 <= i < |chain| - 1 ==> Follow(fs, cwd, chain[i]) == Some(chain[i + 1]))
    && Follow(fs, cwd, chain[|chain| - 1]).Some? && Follow(fs, cwd, chain[|chain| - 1]).value in chain
  }

  lemma {:induction false} WalkSteps(fs: FileSystem, cwd: string, f: string, seen: set<string>)
    requires Walk(fs, cwd, f, seen).Some?
    ensures var c := Walk(fs, cwd, f, seen).value;
            && (c == [] <==> f in seen) && (c != [] ==> c[0] == f)
            && NoDuplicates(c) && (forall x :: x in c ==> x !in seen)
            && (forall i :: 0 <= i < |c| - 1 ==> Follow(fs, cwd, c[i]) == Some(c[i + 1]))
            && (c != [] ==> var l := Follow(fs, cwd, c[|c| - 1]); l.Some? && (l.value in c || l.value in seen))
    decreases |fs.Keys - seen|
  {
    if f !in seen {
      Shrinks(fs.Keys, seen, f);
      var next := Follow(fs, cwd, f).value;
      WalkSteps(fs, cwd, next, seen + {f});
      var rest := Walk(fs, cwd, next, seen + {f}).value;
      assert f !in rest;
    }
  }

  /** ResolveChain finds a chain. */
  lemma {:induction false} WalkIsChain(fs: FileSystem, cwd: string, start: string)
    requires Walk(fs, cwd, start, {}).Some?
    ensures IsChain(fs, cwd, start, Walk(fs, cwd, start, {}).value)
  {
    hide Walk;
    WalkSteps(fs, cwd, start, {});
  }

  lemma {:induction false} ChainsAgreeAt(fs: FileSystem, cwd: string, start: string, a: seq<string>, b: seq<string>,
      i: nat)
    requires IsChain(fs, cwd, start, a) && IsChain(fs, cwd, start, b) && i < |a| && i < |b|
    ensures a[i] == b[i]
  {
    if i > 0 { ChainsAgreeAt(fs, cwd, start, a, b, i - 1); }
  }

  lemma ChainNotLonger(fs: FileSystem, cwd: string, start: string, a: seq<string>, b: seq<string>)
    requires IsChain(fs, cwd, start, a) && IsChain(fs, cwd, start, b)
    ensures |b| <= |a|
  {
    if |a| < |b| {
      var l := |a| - 1;
      ChainsAgreeAt(fs, cwd, start, a, b, l);
      assert Follow(fs, cwd, b[l]) == Some(b[l + 1]);
      var k :| 0 <= k < |a| && a[k] == b[l + 1];
      ChainsAgreeAt(fs, cwd, start, a, b, k);
    }
  }

  /** There is one chain from each start. */
  lemma ChainIsUnique(fs: FileSystem, cwd: string, start: string, a: seq<string>, b: seq<string>)
    requires IsChain(fs, cwd, start, a) && IsChain(fs, cwd, start, b)
    ensures a == b
  {
    ChainNotLonger(fs, cwd, start, a, b);
    ChainNotLonger(fs, cwd, start, b, a);
    forall i | 0 <= i < |a| ensures a[i] == b[i] { ChainsAgreeAt(fs, cwd, start, a, b, i); }
  }

  /** The name after `k` resolutions. */
  function Iterate(fs: FileSystem, cwd: string, f: string, k: nat): Option<string> {
    if k == 0 then Some(f)
    else
      match Iterate(fs, cwd, f, k - 1)
      case None => None
      case Some(g) => Follow(fs, cwd, g)
  }

  lemma {:induction false} IterateShift(fs: FileSystem, cwd: string, f: string, k: nat)
    requires Follow(fs, cwd, f).Some?
    ensures Iterate(fs, cwd, f, k + 1) == Iterate(fs, cwd, Follow(fs, cwd, f).value, k)
  {
    if k > 0 { IterateShift(fs, cwd, f, k - 1); }
  }

  ghost predicate Closed(fs: FileSystem, cwd: string, names: seq<string>) {
    forall x :: x in names ==> Follow(fs, cwd, x).Some? && Follow(fs, cwd, x).value in names
  }

  lemma {:induction false} WalkIsClosed(fs: FileSystem, cwd: string, f: string)
    requires Walk(fs, cwd, f, {}).Some?
    ensures Closed(fs, cwd, Walk(fs, cwd, f, {}).value) && f in Walk(fs, cwd, f, {}).value
  {
    WalkSteps(fs, cwd, f, {});
    var c := Walk(fs, cwd, f, {}).value;
    forall x | x in c ensures Follow(fs, cwd, x).Some? && Follow(fs, cwd, x).value in c {
      var i :| 0 <= i < |c| && c[i] == x;
      if i < |c| - 1 { assert Follow(fs, cwd, c[i]) == Some(c[i + 1]); }
    }
  }

  lemma {:induction false} IterateStays(fs: FileSystem, cwd: string, names: seq<string>, f: string, k: nat)
    requires Closed(fs, cwd, names) && f in names
    ensures Iterate(fs, cwd, f, k).Some? && Iterate(fs, cwd, f, k).value in names
  {
    if k > 0 { IterateStays(fs, cwd, names, f, k - 1); }
  }

  lemma {:induction false} FailureHasCause(fs: FileSystem, cwd: string, f: string, seen: set<string>) returns (k: nat)
    requires Walk(fs, cwd, f, seen).None?
    ensures Iterate(fs, cwd, f, k).None?
    decreases |fs.Keys - seen|
  {
    if Follow(fs, cwd, f).None? {
      assert Iterate(fs, cwd, f, 0) == Some(f);
      k := 1;
    } else {
      Shrinks(fs.Keys, seen, f);
      var j := FailureHasCause(fs, cwd, Follow(fs, cwd, f).value, seen + {f});
      IterateShift(fs, cwd, f, j);
      k := j + 1;
    }
  }

  /** Resolution fails exactly when following the links comes to a missing name. */
  lemma {:induction false} WalkFailsIff(fs: FileSystem, cwd: string, start: string)
    ensures Walk(fs, cwd, start, {}).None? <==> exists k: nat :: Iterate(fs, cwd, start, k).None?
  {
    if Walk(fs, cwd, start, {}).None? {
      var k := FailureHasCause(fs, cwd, start, {});
    } else {
      WalkIsClosed(fs, cwd, start);
      forall k: nat ensures Iterate(fs, cwd, start, k).Some? {
        IterateStays(fs, cwd, Walk(fs, cwd, start, {}).value, start, k);
      }
    }
  }

  // ----- locating -----

  /** The chains of all candidates, one after the other; None if one fails. */
  function AllChains(fs: FileSystem, cwd: string, candidates: seq<string>): Option<seq<string>> {
    if candidates == [] then Some([])
    else
      var init, last := candidates[..|candidates| - 1], candidates[|candidates| - 1];
      var chains := AllChains(fs, cwd, init);
      if chains.None? then None else Prepend(chains.value, Walk(fs, cwd, last, {}))
  }

  lemma {:induction false} ChainWithin(fs: FileSystem, cwd: string, f: string, seen: set<string>, names: seq<string>)
    requires Closed(fs, cwd, names) && f in names
    ensures Walk(fs, cwd, f, seen).Some? && forall x :: x in Walk(fs, cwd, f, seen).value ==> x in names
    decreases |fs.Keys - seen|
  {
    if f !in seen {
      Shrinks(fs.Keys, seen, f);
      ChainWithin(fs, cwd, Follow(fs, cwd, f).value, seen + {f}, names);
    }
  }

  lemma {:induction false} AllChainsFail(fs: FileSystem, cwd: string, candidates: seq<string>, i: nat)
    requires i <= |candidates| && AllChains(fs, cwd, candidates[..i]).None?
    ensures AllChains(fs, cwd, candidates).None?
  {
    hide Walk;
    var k := |candidates| - 1;
    if i <= k {
      assert candidates[..k][..i] == candidates[..i];
      AllChainsFail(fs, cwd, candidates[..k], i);
    } else {
      assert candidates[..i] == candidates;
    }
  }

  /** Skipping candidates met before loses nothing and hides no failure. */
  method Locate(fs: FileSystem, cwd: string, candidates: seq<string>) returns (r: Result<seq<string>>)
    ensures r.Ok? <==> AllChains(fs, cwd, candidates).Some?
    ensures r.Ok? ==> r.value == Unique(AllChains(fs, cwd, candidates).value)
  {
    var filenames: seq<string> := [];
    var found: set<string> := {};
    ghost var all: seq<string> := [];
    for i := 0 to |candidates|
      invariant AllChains(fs, cwd, candidates[..i]) == Some(all)
      invariant filenames == Unique(all) && forall x :: x in found <==> x in filenames
      invariant Closed(fs, cwd, all)
    {
      assert candidates[..i + 1][..i] == candidates[..i];
      var candidate := candidates[i];
      ghost var chain := Walk(fs, cwd, candidate, {});
      if candidate in found {
        ChainWithin(fs, cwd, candidate, {}, all);
        UniqueAbsorbs(all, chain.value);
      } else {
        var targets := ResolveChain(fs, cwd, candidate);
        if targets.Err? {
          AllChainsFail(fs, cwd, candidates, i + 1);
          return Err(targets.message);
        }
        WalkIsClosed(fs, cwd, candidate);
        filenames, found := AddTargets(filenames, found, targets.value, all);
      }
      all := all + chain.value;
    }
    assert candidates[..|candidates|] == candidates;
    r := Ok(filenames);
  }

  method AddTargets(before: seq<string>, seen: set<string>, targets: seq<string>, ghost all: seq<string>)
      returns (filenames: seq<string>, found: set<string>)
    requires before == Unique(all) && forall x :: x in seen <==> x in before
    ensures filenames == Unique(all + targets) && forall x :: x in found <==> x in filenames
  {
    hide Unique;
    filenames, found := before, seen;
    assert all + targets[..0] == all;
    for i := 0 to |targets|
      invariant filenames == Unique(all + targets[..i]) && forall x :: x in found <==> x in filenames
    {
      UniqueSnoc(all + targets[..i], targets[i]);
      assert all + targets[..i + 1] == all + targets[..i] + [targets[i]];
      if targets[i] !in found {
        found := found + {targets[i]};
        filenames := filenames + [targets[i]];
      }
    }
    assert targets[..|targets|] == targets;
  }
}
