/** Lexical path handling, as path/filepath does it on Unix. */
module Paths {
  import opened Strings

  const SEPARATOR := '/'

  predicate IsAbs(path: string) { HasPrefix(path, "/") }

  /** One step of Clean's scan: `stack` holds the components kept so far. */
  function Push(rooted: bool, stack: seq<string>, part: string): seq<string> {
    if part == "" || part == "." then stack
    else if part != ".." then stack + [part]
    else if stack != [] && stack[|stack| - 1] != ".." then stack[..|stack| - 1]
    else if rooted then stack
    else stack + [part]
  }

  function KeptComponents(rooted: bool, parts: seq<string>): seq<string> {
    if parts == [] then []
    else Push(rooted, KeptComponents(rooted, parts[..|parts| - 1]), parts[|parts| - 1])
  }

  /** filepath.Clean */
  function Clean(path: string): (r: string)
    ensures r != ""
  {
    var body := Strings.Join(KeptComponents(IsAbs(path), Split(path, SEPARATOR)), [SEPARATOR]);
    if IsAbs(path) then "/" + body else if body == "" then "." else body
  }

  /** filepath.Join of two elements; empty elements are ignored. */
  function JoinTwo(a: string, b: string): string {
    if a == "" && b == "" then "" else if a == "" then Clean(b) else if b == "" then Clean(a)
    else Clean(a + "/" + b)
  }

  function LastSeparator(path: string): (i: int)
    ensures -1 <= i < |path|
    ensures i >= 0 ==> path[i] == SEPARATOR
    ensures forall j :: i < j < |path| ==> path[j] != SEPARATOR
  {
    if path == "" then -1
    else if path[|path| - 1] == SEPARATOR then |path| - 1
    else LastSeparator(path[..|path| - 1])
  }

  /** filepath.Dir */
  function Dir(path: string): string { Clean(path[..LastSeparator(path) + 1]) }

  function StripTrailing(path: string): string {
    if path != "" && path[|path| - 1] == SEPARATOR then StripTrailing(path[..|path| - 1]) else path
  }

  /** filepath.Base */
  function Base(path: string): string {
    if path == "" then "."
    else
      var p := StripTrailing(path);
      if p == "" then "/" else p[LastSeparator(p) + 1..]
  }

  /** filepath.Abs, given the working directory. */
  function Abs(cwd: string, path: string): string {
    if IsAbs(path) then Clean(path) else JoinTwo(cwd, path)
  }

  // ----- what Clean does to the text -----

  /** A component that stands for a directory entry. */
  ghost predicate IsEntry(name: string) { name != "" && name != "." && name != ".." && '/' !in name }

  lemma {:induction false} KeptSnoc(rooted: bool, parts: seq<string>, part: string)
    ensures KeptComponents(rooted, parts + [part]) == Push(rooted, KeptComponents(rooted, parts), part)
  {
    assert (parts + [part])[..|parts|] == parts;
  }

  /** Equal components so far stay equal under the same continuation. */
  lemma {:induction false} KeptAgree(rooted: bool, a: seq<string>, b: seq<string>, rest: seq<string>)
    requires KeptComponents(rooted, a) == KeptComponents(rooted, b)
    ensures KeptComponents(rooted, a + rest) == KeptComponents(rooted, b + rest)
  {
    hide KeptComponents, Push;
    if rest == [] {
      assert a + rest == a && b + rest == b;
    } else {
      var init, last := rest[..|rest| - 1], rest[|rest| - 1];
      assert rest == init + [last];
      KeptAgree(rooted, a, b, init);
      KeptSnoc(rooted, a + init, last);
      KeptSnoc(rooted, b + init, last);
      assert a + rest == (a + init) + [last] && b + rest == (b + init) + [last];
    }
  }

  lemma {:induction false} KeptThrough(rooted: bool, a: string, b: string, rest: string)
    requires KeptComponents(rooted, Split(a, '/')) == KeptComponents(rooted, Split(b, '/'))
    ensures KeptComponents(rooted, Split(a + "/" + rest, '/')) == KeptComponents(rooted, Split(b + "/" + rest, '/'))
  {
    SplitAppend(a, rest, '/');
    SplitAppend(b, rest, '/');
    KeptAgree(rooted, Split(a, '/'), Split(b, '/'), Split(rest, '/'));
  }

  lemma {:induction false} KeptNext(rooted: bool, a: string, part: string)
    requires '/' !in part
    ensures KeptComponents(rooted, Split(a + "/" + part, '/')) == Push(rooted, KeptComponents(rooted, Split(a, '/')), part)
  {
    SplitAppend(a, part, '/');
    SplitWhole(part, '/');
    KeptSnoc(rooted, Split(a, '/'), part);
  }

  lemma {:induction false} KeptFirst(rooted: bool, part: string)
    requires '/' !in part
    ensures KeptComponents(rooted, Split(part, '/')) == Push(rooted, [], part)
  {
    SplitWhole(part, '/');
  }

  lemma RootedByStart(a: string, b: string)
    ensures IsAbs(a + "/" + b) <==> a == "" || a[0] == '/'
  {
    var s := a + "/" + b;
    assert s[0] == if a == "" then '/' else a[0];
    assert s[..1] == [s[0]];
  }

  /** A repeated separator and a "." component go. */
  lemma {:induction false} CleanSkips(a: string, part: string, b: string)
    requires part == "" || part == "."
    ensures Clean(a + "/" + part + "/" + b) == Clean(a + "/" + b)
  {
    hide KeptComponents, Split;
    RootedByStart(a, b);
    RootedByStart(a, part + "/" + b);
    assert a + "/" + part + "/" + b == a + "/" + (part + "/" + b);
    var rooted := IsAbs(a + "/" + b);
    KeptNext(rooted, a, part);
    KeptThrough(rooted, a + "/" + part, a, b);
  }

  /** So does a name followed by "..". */
  lemma {:induction false} CleanStepsBack(a: string, name: string, b: string)
    requires IsEntry(name)
    ensures Clean(a + "/" + name + "/.." + "/" + b) == Clean(a + "/" + b)
  {
    hide KeptComponents, Split;
    RootedByStart(a, b);
    RootedByStart(a, name + "/.." + "/" + b);
    assert a + "/" + name + "/.." + "/" + b == a + "/" + (name + "/.." + "/" + b);
    var rooted := IsAbs(a + "/" + b);
    KeptNext(rooted, a, name);
    KeptNext(rooted, a + "/" + name, "..");
    assert a + "/" + name + "/.." == a + "/" + name + "/" + "..";
    KeptThrough(rooted, a + "/" + name + "/..", a, b);
  }

  /** And ".." at the root. */
  lemma {:induction false} CleanRoot(b: string)
    ensures Clean("/.." + "/" + b) == Clean("/" + b)
  {
    hide KeptComponents, Split;
    RootedByStart("", b);
    RootedByStart("/..", b);
    KeptFirst(true, "");
    KeptNext(true, "", "..");
    assert "" + "/" + ".." == "/.." && "" + "/" + b == "/" + b;
    KeptThrough(true, "/..", "", b);
  }

  /** A relative path may start with "." or with a name followed by "..". */
  lemma {:induction false} CleanRelative(name: string, b: string)
    requires IsEntry(name)
    ensures Clean(name + "/.." + "/" + b) == Clean("." + "/" + b)
    ensures b != "" && b[0] != '/' ==> Clean("." + "/" + b) == Clean(b)
  {
    hide KeptComponents, Split;
    assert name[0] in name;
    RootedByStart(name + "/..", b);
    RootedByStart(".", b);
    KeptFirst(false, name);
    KeptFirst(false, ".");
    KeptNext(false, name, "..");
    assert name + "/.." == name + "/" + "..";
    KeptThrough(false, name + "/..", ".", b);
    CleanDot(b);
  }

  lemma DotAddsNothing()
    ensures KeptComponents(false, ["."]) == KeptComponents(false, [])
  {
    KeptSnoc(false, [], ".");
    assert [] + ["."] == ["."];
  }

  lemma {:induction false} CleanDot(b: string)
    ensures b != "" && b[0] != '/' ==> Clean("." + "/" + b) == Clean(b)
  {
    hide KeptComponents, Split;
    RootedByStart(".", b);
    SplitAppend(".", b, '/');
    SplitWhole(".", '/');
    DotAddsNothing();
    KeptAgree(false, ["."], [], Split(b, '/'));
    assert [] + Split(b, '/') == Split(b, '/');
    if b != "" && b[0] != '/' { assert b[..1] == [b[0]]; }
  }

  /** A separator at the end makes no difference. */
  lemma {:induction false} CleanTrailing(a: string)
    requires a != ""
    ensures Clean(a + "/") == Clean(a)
  {
    hide KeptComponents, Split;
    RootedByStart(a, "");
    KeptNext(IsAbs(a), a, "");
    assert a + "/" + "" == a + "/" && a[..1] == [a[0]];
  }

  // ----- what Clean leaves -----

  ghost predicate AllEntries(names: seq<string>) { forall n :: n in names ==> IsEntry(n) }

  function Ups(n: nat): seq<string> { seq(n, _ => "..") }

  /** Rooted names, or names below some "..", or nothing but ".". */
  ghost predicate IsClean(path: string) {
    || path == "."
    || (exists names :: AllEntries(names) && path == "/" + Join(names, "/"))
    || exists n, names :: AllEntries(names) && Ups(n) + names != [] && path == Join(Ups(n) + names, "/")
  }

  lemma {:induction false} KeptAre(rooted: bool, parts: seq<string>) returns (n: nat, names: seq<string>)
    requires forall p :: p in parts ==> '/' !in p
    ensures AllEntries(names) && KeptComponents(rooted, parts) == Ups(n) + names && (rooted ==> n == 0)
  {
    if parts == [] {
      n, names := 0, [];
    } else {
      var last := parts[|parts| - 1];
      n, names := KeptAre(rooted, parts[..|parts| - 1]);
      var kept := Ups(n) + names;
      if last == "" || last == "." {
      } else if last != ".." {
        assert kept + [last] == Ups(n) + (names + [last]);
        names := names + [last];
      } else if names != [] {
        assert names[|names| - 1] in names;
        assert kept[..|kept| - 1] == Ups(n) + names[..|names| - 1];
        names := names[..|names| - 1];
      } else if !rooted {
        assert kept + [".."] == Ups(n + 1) + names;
        n := n + 1;
      }
    }
  }

  lemma {:induction false} CleanIsClean(path: string)
    ensures IsClean(Clean(path))
  {
    SplitPieces(path, '/');
    var n, names := KeptAre(IsAbs(path), Split(path, '/'));
    if IsAbs(path) { assert Ups(0) + names == names; }
  }

  lemma {:induction false} KeptUps(n: nat)
    ensures KeptComponents(false, Ups(n)) == Ups(n)
  {
    if n > 0 {
      assert Ups(n)[..n - 1] == Ups(n - 1);
      KeptUps(n - 1);
      assert Ups(n) == Ups(n - 1) + [".."];
    }
  }

  lemma {:induction false} KeptNames(rooted: bool, n: nat, names: seq<string>)
    requires AllEntries(names) && (rooted ==> n == 0)
    ensures KeptComponents(rooted, Ups(n) + names) == Ups(n) + names
  {
    if names == [] {
      assert Ups(n) + names == Ups(n);
      if n > 0 { KeptUps(n); }
    } else {
      var init, last := names[..|names| - 1], names[|names| - 1];
      assert IsEntry(last) by { assert last in names; }
      KeptNames(rooted, n, init);
      KeptSnoc(rooted, Ups(n) + init, last);
      assert Ups(n) + names == (Ups(n) + init) + [last];
    }
  }

  /** Clean paths stay as they are, and Clean gives nothing else. */
  lemma {:induction false} CleanKeeps(path: string)
    ensures Clean(path) == path <==> IsClean(path)
  {
    hide KeptComponents, Clean;
    if path == "." {
      CleanOfDot();
    } else if names :| AllEntries(names) && path == "/" + Join(names, "/") {
      RootedNames(names);
    } else if n, names :| AllEntries(names) && Ups(n) + names != [] && path == Join(Ups(n) + names, "/") {
      RelativeNames(n, names);
    } else {
      CleanIsClean(path);
    }
  }

  lemma {:induction false} CleanOfDot()
    ensures Clean(".") == "."
  {
    KeptFirst(false, ".");
  }

  lemma {:induction false} RootedNames(names: seq<string>)
    requires AllEntries(names)
    ensures Clean("/" + Join(names, "/")) == "/" + Join(names, "/")
  {
    var body := Join(names, "/");
    RootedByStart("", body);
    SplitAppend("", body, '/');
    SplitWhole("", '/');
    assert "" + "/" + body == "/" + body;
    KeptSnoc(true, [], "");
    assert [] + [""] == [""];
    if names == [] {
      KeptSnoc(true, [""], "");
    } else {
      SplitOfJoin(names, '/');
      KeptAgree(true, [""], [], names);
      KeptNames(true, 0, names);
      assert [] + names == names && Ups(0) + names == names;
    }
  }

  lemma {:induction false} RelativeNames(n: nat, names: seq<string>)
    requires AllEntries(names) && Ups(n) + names != []
    ensures Clean(Join(Ups(n) + names, "/")) == Join(Ups(n) + names, "/")
  {
    hide KeptComponents, Split;
    var all := Ups(n) + names;
    forall p | p in all ensures p != "" && '/' !in p && (p == ".." || IsEntry(p)) {
      assert p in Ups(n) || p in names;
    }
    assert all[0] in all;
    assert all[0][0] in all[0];
    SplitOfJoin(all, '/');
    KeptNames(false, n, names);
    RelativeJoin(all);
  }

  lemma RelativeJoin(parts: seq<string>)
    requires parts != [] && parts[0] != "" && parts[0][0] != '/'
    ensures Join(parts, "/") != "" && !IsAbs(Join(parts, "/"))
  {
    var s := Join(parts, "/");
    assert s[0] == parts[0][0] && s[..1] == [s[0]];
  }

  // ----- taking paths apart and putting them together -----

  lemma NoSeparator(name: string)
    requires '/' !in name
    ensures LastSeparator(name) == -1
  {
    hide LastSeparator;
    assert forall j :: 0 <= j < |name| ==> name[j] in name;
  }

  lemma LastSeparatorUnique(path: string, i: nat)
    requires i < |path| && path[i] == '/' && '/' !in path[i + 1..]
    ensures LastSeparator(path) == i
  {
    hide LastSeparator;
    forall j | i < j < |path| ensures path[j] != '/' { assert path[j] == path[i + 1..][j - i - 1]; }
  }

  lemma LastSeparatorIs(a: string, name: string)
    requires '/' !in name
    ensures LastSeparator(a + "/" + name) == |a|
  {
    hide LastSeparator;
    var s := a + "/" + name;
    assert s[|a| + 1..] == name && s[|a|] == '/';
    LastSeparatorUnique(s, |a|);
  }

  lemma CleanIsRooted(path: string)
    ensures "/" <= Clean(path) <==> "/" <= path
  {
    hide KeptComponents, Split;
    PrefixLaws(path, "/");
    if "/" <= path {
      RootedByStart("", path[1..]);
      assert path == "" + "/" + path[1..];
    } else {
      SplitPieces(path, '/');
      var n, names := KeptAre(false, Split(path, '/'));
      if Ups(n) + names != [] {
        NotRooted(n, names);
        assert Clean(path) == Join(Ups(n) + names, "/");
      } else {
        assert Clean(path) == "." && "."[0] != "/"[0];
      }
    }
  }

  lemma NotRooted(n: nat, names: seq<string>)
    requires AllEntries(names) && Ups(n) + names != []
    ensures var s := Join(Ups(n) + names, "/"); s != "" && !("/" <= s)
  {
    var all := Ups(n) + names;
    assert n == 0 ==> all[0] == names[0] && names[0] in names && names[0][0] in names[0];
    assert n > 0 ==> all[0] == "..";
    RelativeJoin(all);
  }

  /** The directory of a path with a separator is what comes before the last one; otherwise it is ".". */
  lemma DirOf(a: string, name: string)
    requires '/' !in name
    ensures Dir(a + "/" + name) == if a == "" then "/" else Clean(a)
    ensures Dir(name) == "."
  {
    hide Clean;
    LastSeparatorIs(a, name);
    NoSeparator(name);
    assert (a + "/" + name)[..|a| + 1] == a + "/";
    CleanOfNothing();
    if a == "" { assert a + "/" == "/"; } else { CleanTrailing(a); }
  }

  lemma CleanOfNothing()
    ensures Clean("") == "." && Clean("/") == "/"
  {
    KeptFirst(false, "");
    RootedNames([]);
    assert "/" + Join([], "/") == "/";
  }

  lemma NothingToStrip(path: string)
    requires path != "" && path[|path| - 1] != '/'
    ensures StripTrailing(path) == path && Base(path) == path[LastSeparator(path) + 1..]
  {
    hide LastSeparator;
  }

  lemma {:induction false} BaseOf(a: string, name: string)
    requires name != "" && '/' !in name
    ensures Base(a + "/" + name) == name && Base(name) == name
  {
    hide Base, LastSeparator;
    LastSeparatorIs(a, name);
    NoSeparator(name);
    assert name[|name| - 1] in name;
    NothingToStrip(a + "/" + name);
    NothingToStrip(name);
    assert (a + "/" + name)[|a| + 1..] == name;
  }

  lemma {:induction false} BaseTrailing(a: string)
    ensures Base("") == "." && Base("/") == "/"
    ensures a != "" ==> Base(a + "/") == Base(a)
  {
    hide LastSeparator;
    assert (a + "/")[..|a|] == a;
    assert "/"[..0] == "";
  }

  /** Joining two texts cleans them with a separator between; an empty one is left out. */
  lemma JoinTwoOf(a: string, b: string)
    ensures a != "" && b != "" ==> JoinTwo(a, b) == Clean(a + "/" + b)
    ensures a != "" ==> JoinTwo(a, "") == JoinTwo("", a) == Clean(a)
    ensures JoinTwo("", "") == ""
  {
  }

  lemma AbsOf(cwd: string, path: string)
    ensures "/" <= path ==> Abs(cwd, path) == Clean(path)
    ensures !("/" <= path) && cwd != "" && path != "" ==> Abs(cwd, path) == Clean(cwd + "/" + path)
  {
  }

  /** A clean path below the root has one separator for each name. */
  lemma {:induction false} SeparatorsOfNames(names: seq<string>)
    requires AllEntries(names) && names != []
    ensures multiset("/" + Join(names, "/"))['/'] == |names|
  {
    var first := names[0];
    assert first in names && multiset(first)['/'] == 0;
    if |names| == 1 {
      assert multiset("/" + first)['/'] == multiset("/")['/'] + multiset(first)['/'];
    } else {
      assert AllEntries(names[1..]) by { forall n | n in names[1..] ensures IsEntry(n) { assert n in names; } }
      SeparatorsOfNames(names[1..]);
      assert "/" + Join(names, "/") == "/" + first + ("/" + Join(names[1..], "/"));
      assert multiset("/" + first)['/'] == multiset("/")['/'] + multiset(first)['/'];
    }
  }
}
