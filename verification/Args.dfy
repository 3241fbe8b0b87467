/** Scanning the arguments of a low-level runtime for the bundle and the create subcommand. */
module Args {
  import opened Wrappers
  import opened Strings

  function TrimLeft(s: string, c: char): string {
    if s != "" && s[0] == c then TrimLeft(s[1..], c) else s
  }

  predicate IsBundleFlag(arg: string) {
    HasPrefix(arg, "-") && (TrimLeft(arg, '-') == "b" || TrimLeft(arg, '-') == "bundle")
  }

  /** strings.SplitN(param, "=", 2) */
  function SplitFlag(param: string): (string, Option<string>) {
    var i := IndexOf(param, '=');
    (param[..i], if i < |param| then Some(param[i + 1..]) else None)
  }

  // ----- which arguments are option values -----

  /** Argument `i` is the value of the bundle flag before it. */
  predicate IsBundleValue(args: seq<string>, i: nat)
    requires i <= |args|
  {
    i > 0 && IsBundleFlag(args[i - 1]) && !IsBundleValue(args, i - 1)
  }

  /** The bundle directory that argument `i` gives, if any. */
  function Gives(args: seq<string>, i: nat): Option<string>
    requires i < |args|
  {
    if IsBundleValue(args, i) then Some(args[i])
    else
      var (flag, value) := SplitFlag(args[i]);
      if IsBundleFlag(flag) then value else None
  }

  /** `dir` is what the last argument before `n` that gives a bundle directory gives; "" if none does. */
  ghost predicate LastGiven(args: seq<string>, n: nat, dir: string)
    requires n <= |args|
  {
    || (dir == "" && forall i :: 0 <= i < n ==> Gives(args, i) == None)
    || exists i :: 0 <= i < n && Gives(args, i) == Some(dir) && forall j :: i < j < n ==> Gives(args, j) == None
  }

  /** There is one such directory. */
  lemma LastGivenIsUnique(args: seq<string>, n: nat, a: string, b: string)
    requires n <= |args| && LastGiven(args, n, a) && LastGiven(args, n, b)
    ensures a == b
  {
    hide Gives;
    if exists i :: 0 <= i < n && Gives(args, i) != None {
      var i :| 0 <= i < n && Gives(args, i) == Some(a) && forall j :: i < j < n ==> Gives(args, j) == None;
      var j :| 0 <= j < n && Gives(args, j) == Some(b) && forall k :: j < k < n ==> Gives(args, k) == None;
    }
  }

  lemma {:induction false} TrimLeftKeeps(s: string, c: char, d: char)
    requires d != c
    ensures d in TrimLeft(s, c) <==> d in s
  {
    if s != "" && s[0] == c {
      TrimLeftKeeps(s[1..], c, d);
      assert s == [s[0]] + s[1..];
    }
  }

  /** A bundle flag standing alone has no '='. */
  lemma FlagHasNoValue(arg: string)
    ensures IsBundleFlag(arg) ==> SplitFlag(arg) == (arg, None)
  {
    if IsBundleFlag(arg) {
      TrimLeftKeeps(arg, '-', '=');
      assert '=' !in "b" && '=' !in "bundle";
      assert '=' !in arg;
      assert arg[..|arg|] == arg;
    }
  }

  lemma Skip(args: seq<string>, n: nat, dir: string)
    requires n < |args| && LastGiven(args, n, dir) && Gives(args, n) == None
    ensures LastGiven(args, n + 1, dir)
  {
    if i :| 0 <= i < n && Gives(args, i) == Some(dir) && forall j :: i < j < n ==> Gives(args, j) == None {
      assert forall j :: i < j < n + 1 ==> Gives(args, j) == None;
    }
  }

  lemma Take(args: seq<string>, n: nat, dir: string)
    requires n < |args| && Gives(args, n) == Some(dir)
    ensures LastGiven(args, n + 1, dir)
  {
  }

  lemma SplitWithoutValue(arg: string)
    requires SplitFlag(arg).1.None?
    ensures SplitFlag(arg).0 == arg
  {
    assert arg[..|arg|] == arg;
  }

  method GetBundleDirFromArgs(args: seq<string>) returns (r: Result<string>)
    ensures r.Err? <==> args != [] && IsBundleFlag(args[|args| - 1]) && !IsBundleValue(args, |args| - 1)
    ensures r.Ok? ==> LastGiven(args, |args|, r.value)
  {
    var bundleDir := "";
    var i := 0;
    while i < |args|
      invariant i <= |args| && !IsBundleValue(args, i)
      invariant i == |args| && i > 0 && IsBundleFlag(args[i - 1]) ==> IsBundleValue(args, i - 1)
      invariant LastGiven(args, i, bundleDir)
    {
      var (flag, value) := SplitFlag(args[i]);
      FlagHasNoValue(args[i]);
      if !IsBundleFlag(flag) {
        Skip(args, i, bundleDir);
        i := i + 1;
      } else if value.Some? {
        bundleDir := value.value;
        Take(args, i, bundleDir);
        i := i + 1;
      } else {
        SplitWithoutValue(args[i]);
        if i + 1 < |args| {
          bundleDir := args[i + 1];
          Take(args, i + 1, bundleDir);
          i := i + 2;
        } else {
          return Err("bundle option requires an argument");
        }
      }
    }
    r := Ok(bundleDir);
  }

  /** Both scans agree on which arguments are values of the bundle flag. */
  method HasCreateSubcommand(args: seq<string>) returns (found: bool)
    ensures found <==> exists i :: 0 <= i < |args| && args[i] == "create" && !IsBundleValue(args, i)
  {
    var previousWasBundle := false;
    for i := 0 to |args|
      invariant previousWasBundle == IsBundleValue(args, i)
      invariant forall k :: 0 <= k < i && args[k] == "create" ==> IsBundleValue(args, k)
    {
      if !previousWasBundle && IsBundleFlag(args[i]) {
        assert args[i] != "create" by { assert "create"[0] == 'c'; }
        previousWasBundle := true;
      } else {
        if !previousWasBundle && args[i] == "create" {
          return true;
        }
        previousWasBundle := false;
      }
    }
    return false;
  }

  // ----- the arguments by their text -----

  /** One or more dashes, then "b" or "bundle". */
  ghost predicate DashedBundle(arg: string) {
    exists dashes :: IsDashes(dashes) && (arg == dashes + "b" || arg == dashes + "bundle")
  }

  ghost predicate IsDashes(s: string) { s != "" && forall c :: c in s ==> c == '-' }

  lemma {:induction false} TrimLeftPart(s: string, c: char) returns (left: string)
    ensures s == left + TrimLeft(s, c) && forall d :: d in left ==> d == c
  {
    left := "";
    if s != "" && s[0] == c {
      left := TrimLeftPart(s[1..], c);
      left := [c] + left;
      assert s == [c] + s[1..];
    }
  }

  lemma {:induction false} TrimLeftAway(left: string, s: string, c: char)
    requires (forall d :: d in left ==> d == c) && (s == "" || s[0] != c)
    ensures TrimLeft(left + s, c) == s
  {
    if left == "" {
      assert left + s == s;
    } else {
      assert left[0] in left && forall d :: d in left[1..] ==> d in left;
      assert (left + s)[1..] == left[1..] + s;
      TrimLeftAway(left[1..], s, c);
    }
  }

  lemma {:induction false} BundleFlagIff(arg: string)
    ensures IsBundleFlag(arg) <==> DashedBundle(arg)
  {
    PrefixLaws(arg, "-");
    if IsBundleFlag(arg) {
      var dashes := TrimLeftPart(arg, '-');
      assert dashes != "" by { assert arg[0] == '-'; }
      assert IsDashes(dashes);
    }
    if dashes :| IsDashes(dashes) && (arg == dashes + "b" || arg == dashes + "bundle") {
      assert dashes[0] in dashes && arg[..1] == "-";
      assert "b"[0] == 'b' == "bundle"[0];
      TrimLeftAway(dashes, if arg == dashes + "b" then "b" else "bundle", '-');
    }
  }

  /** An argument is cut at its first '='. */
  lemma {:induction false} SplitFlagText(flag: string, value: string)
    requires '=' !in flag
    ensures SplitFlag(flag + "=" + value) == (flag, Some(value)) && SplitFlag(flag) == (flag, None)
  {
    var s := flag + "=" + value;
    IndexAfter(flag, "=" + value, '=');
    assert s == flag + ("=" + value);
    assert s[..|flag|] == flag && s[|flag| + 1..] == value;
    IndexAfter(flag, "", '=');
    assert flag + "" == flag && flag[..|flag|] == flag;
  }

  /** An argument that is no value gives a directory exactly when it is a bundle flag, '=' and the directory. */
  lemma {:induction false} GivesIff(args: seq<string>, i: nat, dir: string)
    requires i < |args| && !IsBundleValue(args, i)
    ensures Gives(args, i) == Some(dir) <==> exists flag :: DashedBundle(flag) && args[i] == flag + "=" + dir
  {
    hide DashedBundle;
    var arg := args[i];
    if Gives(args, i) == Some(dir) {
      var (flag, value) := SplitFlag(arg);
      BundleFlagIff(flag);
      assert arg == flag + "=" + dir;
    }
    if flag :| DashedBundle(flag) && arg == flag + "=" + dir {
      BundleFlagIff(flag);
      FlagHasNoValue(flag);
      assert '=' !in flag;
      SplitFlagText(flag, dir);
    }
  }

  /** An argument is a value exactly when an odd number of bundle flags stands right before it. */
  lemma {:induction false} BundleValueIff(args: seq<string>, i: nat)
    requires i <= |args|
    ensures IsBundleValue(args, i) <==>
      exists k: nat :: k <= i && k % 2 == 1 && (forall j :: i - k <= j < i ==> DashedBundle(args[j]))
        && (i - k > 0 ==> !DashedBundle(args[i - k - 1]))
  {
    hide DashedBundle;
    var k := FlagsBefore(args, i);
  }

  lemma {:induction false} FlagsBefore(args: seq<string>, i: nat) returns (k: nat)
    requires i <= |args|
    ensures k <= i && (forall j :: i - k <= j < i ==> DashedBundle(args[j])) && (i - k > 0 ==> !DashedBundle(args[i - k - 1]))
    ensures IsBundleValue(args, i) <==> k % 2 == 1
  {
    hide DashedBundle;
    k := 0;
    if i > 0 {
      BundleFlagIff(args[i - 1]);
      if DashedBundle(args[i - 1]) {
        k := FlagsBefore(args, i - 1);
        k := k + 1;
      }
    }
  }
}
