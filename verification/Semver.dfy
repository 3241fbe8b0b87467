/** Comparing semantic versions the way golang.org/x/mod/semver does. */
module Semver {
  import opened Wrappers
  import opened Numbers
  import opened Strings

  /** What a version is compared by; build metadata is dropped. */
  datatype Version = Version(major: string, minor: string, patch: string, prerelease: string)

  predicate IsIdentChar(c: char) { 'A' <= c <= 'Z' || 'a' <= c <= 'z' || IsDigit(c) || c == '-' }

  /** The number of digits `v` starts with. */
  function DigitRun(v: string): (n: nat)
    ensures n <= |v| && forall i :: 0 <= i < n ==> IsDigit(v[i])
    ensures n < |v| ==> !IsDigit(v[n])
  {
    if v == "" || !IsDigit(v[0]) then 0 else 1 + DigitRun(v[1..])
  }

  predicate IsNum(v: string) { DigitRun(v) == |v| }

  predicate IsBadNum(v: string) { IsNum(v) && |v| > 1 && v[0] == '0' }

  function ParseInt(v: string): Option<(string, string)> {
    var i := DigitRun(v);
    if i == 0 || (v[0] == '0' && i != 1) then None else Some((v[..i], v[i..]))
  }

  /** Scans dot-separated identifiers from `i` on, up to `stop` or the end; `start` is where the current one began. */
  function ScanIdents(v: string, stop: char, allowBadNum: bool, start: nat, i: nat): (end: Option<nat>)
    requires start <= i <= |v|
    ensures end.Some? ==> i <= end.value <= |v|
    decreases |v| - i
  {
    var complete := start != i && (allowBadNum || !IsBadNum(v[start..i]));
    if i == |v| || v[i] == stop then (if complete then Some(i) else None)
    else if v[i] == '.' then (if complete then ScanIdents(v, stop, allowBadNum, i + 1, i + 1) else None)
    else if IsIdentChar(v[i]) then ScanIdents(v, stop, allowBadNum, start, i + 1)
    else None
  }

  /** The pre-release part and the rest. */
  function ParsePrerelease(v: string): Option<(string, string)> {
    if v == "" || v[0] != '-' then Some(("", v))
    else
      match ScanIdents(v, '+', false, 1, 1)
      case None => None
      case Some(end) => Some((v[..end], v[end..]))
  }

  /** Build metadata must run to the end. */
  predicate IsBuild(v: string) {
    v == "" || (v[0] == '+' && ScanIdents(v, '+', true, 1, 1) == Some(|v|))
  }

  function ParseSuffix(major: string, minor: string, patch: string, v: string): Option<Version> {
    match ParsePrerelease(v)
    case None => None
    case Some((prerelease, build)) => if IsBuild(build) then Some(Version(major, minor, patch, prerelease)) else None
  }

  function ParsePatch(major: string, minor: string, v: string): Option<Version> {
    if v == "" then Some(Version(major, minor, "0", ""))
    else if v[0] != '.' then None
    else
      match ParseInt(v[1..])
      case None => None
      case Some((patch, rest)) => ParseSuffix(major, minor, patch, rest)
  }

  function ParseMinor(major: string, v: string): Option<Version> {
    if v == "" then Some(Version(major, "0", "0", ""))
    else if v[0] != '.' then None
    else
      match ParseInt(v[1..])
      case None => None
      case Some((minor, rest)) => ParsePatch(major, minor, rest)
  }

  function Parse(v: string): Option<Version> {
    if v == "" || v[0] != 'v' then None
    else
      match ParseInt(v[1..])
      case None => None
      case Some((major, rest)) => ParseMinor(major, rest)
  }

  predicate IsValid(v: string) { Parse(v).Some? }

  // ----- comparing -----

  function CompareInt(x: string, y: string): int {
    if x == y then 0 else if |x| < |y| then -1 else if |x| > |y| then 1 else if Less(x, y) then -1 else 1
  }

  /** The identifier `x` starts with, and what follows it. */
  function NextIdent(x: string): (r: (string, string))
    ensures r.0 + r.1 == x && '.' !in r.0 && (r.1 == "" || r.1[0] == '.')
  {
    var i := IndexOf(x, '.');
    (x[..i], x[i..])
  }

  function CompareIdent(dx: string, dy: string): int {
    if dx == dy then 0
    else if IsNum(dx) != IsNum(dy) then (if IsNum(dx) then -1 else 1)
    else if IsNum(dx) && |dx| < |dy| then -1
    else if IsNum(dx) && |dx| > |dy| then 1
    else if Less(dx, dy) then -1 else 1
  }

  /** The loop over both identifier lists; the first character of each is the hyphen or dot before an identifier. */
  function CompareIdents(x: string, y: string): int
    decreases |x|
  {
    if x == "" then -1 else if y == "" then 1
    else
      var (dx, restX) := NextIdent(x[1..]);
      var (dy, restY) := NextIdent(y[1..]);
      if dx != dy then CompareIdent(dx, dy) else CompareIdents(restX, restY)
  }

  function ComparePrerelease(x: string, y: string): int {
    if x == y then 0 else if x == "" then 1 else if y == "" then -1 else CompareIdents(x, y)
  }

  function CompareVersions(a: Version, b: Version): int {
    if CompareInt(a.major, b.major) != 0 then CompareInt(a.major, b.major)
    else if CompareInt(a.minor, b.minor) != 0 then CompareInt(a.minor, b.minor)
    else if CompareInt(a.patch, b.patch) != 0 then CompareInt(a.patch, b.patch)
    else ComparePrerelease(a.prerelease, b.prerelease)
  }

  function Compare(v: string, w: string): int {
    match (Parse(v), Parse(w))
    case (None, None) => 0
    case (None, _) => -1
    case (_, None) => 1
    case (Some(a), Some(b)) => CompareVersions(a, b)
  }

  // ----- comparisons are orders -----

  /** What two comparisons of the same kind of thing must satisfy to order it. */
  ghost predicate Comparator<T(!new)>(c: (T, T) -> int) {
    && (forall a, b :: c(a, b) == -c(b, a))
    && (forall a, b :: c(a, b) == 0 <==> a == b)
    && (forall a, b, d :: c(a, b) < 0 && c(b, d) < 0 ==> c(a, d) < 0)
  }

  lemma {:induction false} LessIsOrder(a: string, b: string, d: string)
    ensures Less(a, b) ==> !Less(b, a)
    ensures Less(a, b) || Less(b, a) || a == b
    ensures Less(a, b) && Less(b, d) ==> Less(a, d)
  {
    if Less(a, b) {
      LessAsymmetric(a, b);
      if Less(b, d) { LessTransitive(a, b, d); }
    }
    LessTotal(a, b);
  }

  lemma CompareIntIsComparator()
    ensures Comparator(CompareInt)
  {
    forall a, b, d ensures CompareInt(a, b) == -CompareInt(b, a)
      && (CompareInt(a, b) < 0 && CompareInt(b, d) < 0 ==> CompareInt(a, d) < 0)
    {
      LessIsOrder(a, b, d);
      LessIsOrder(a, d, b);
    }
  }

  lemma CompareIdentIsComparator()
    ensures Comparator(CompareIdent)
  {
    forall a, b, d ensures CompareIdent(a, b) == -CompareIdent(b, a)
      && (CompareIdent(a, b) < 0 && CompareIdent(b, d) < 0 ==> CompareIdent(a, d) < 0)
    {
      LessIsOrder(a, b, d);
      LessIsOrder(a, d, b);
    }
  }

  /** Comparing lists by their first difference; a proper prefix comes first. */
  function CompareLists<T(==)>(c: (T, T) -> int, xs: seq<T>, ys: seq<T>): int {
    if xs == ys then 0 else if xs == [] then -1 else if ys == [] then 1
    else if xs[0] != ys[0] then c(xs[0], ys[0])
    else CompareLists(c, xs[1..], ys[1..])
  }

  lemma {:induction false} ListsFlip<T(!new)>(c: (T, T) -> int, xs: seq<T>, ys: seq<T>)
    requires Comparator(c)
    ensures CompareLists(c, xs, ys) == -CompareLists(c, ys, xs)
    ensures CompareLists(c, xs, ys) == 0 <==> xs == ys
  {
    if xs != [] && ys != [] && xs[0] == ys[0] {
      ListsFlip(c, xs[1..], ys[1..]);
      assert xs == [xs[0]] + xs[1..] && ys == [ys[0]] + ys[1..];
    }
  }

  lemma {:induction false} ListsTransitive<T(!new)>(c: (T, T) -> int, xs: seq<T>, ys: seq<T>, zs: seq<T>)
    requires Comparator(c) && CompareLists(c, xs, ys) < 0 && CompareLists(c, ys, zs) < 0
    ensures CompareLists(c, xs, zs) < 0
  {
    if xs != [] && ys != [] && zs != [] && xs[0] == ys[0] == zs[0] {
      ListsTransitive(c, xs[1..], ys[1..], zs[1..]);
    } else if xs == [] {
      assert zs != [];
    } else {
      assert ys != [] && zs != [];
      assert xs[0] == ys[0] || c(xs[0], ys[0]) < 0;
      assert ys[0] == zs[0] || c(ys[0], zs[0]) < 0;
      assert c(xs[0], zs[0]) < 0;
    }
  }

  // ----- pre-release identifiers -----

  function Idents(x: string): seq<string>
    decreases |x|
  {
    if x == "" then [] else
      var (dx, rest) := NextIdent(x[1..]);
      [dx] + Idents(rest)
  }

  lemma {:induction false} JoinCons(part: string, parts: seq<string>)
    ensures Join([part] + parts, ".") == if parts == [] then part else part + ['.'] + Join(parts, ".")
  {
    assert ([part] + parts)[1..] == parts;
  }

  lemma {:induction false} IdentsRejoin(x: string)
    requires x != ""
    ensures Idents(x) != [] && x[1..] == Join(Idents(x), ".")
    decreases |x|
  {
    var tail := x[1..];
    var next := NextIdent(tail);
    assert Idents(x) == [next.0] + Idents(next.1);
    JoinCons(next.0, Idents(next.1));
    if next.1 != "" { IdentsRejoin(next.1); }
    Rejoined(tail, next.0, next.1, Idents(next.1));
  }

  lemma {:induction false} Rejoined(tail: string, dx: string, rest: string, idents: seq<string>)
    requires tail == dx + rest && (rest == "" || rest[0] == '.')
    requires rest == "" <==> idents == []
    requires rest != "" ==> rest[1..] == Join(idents, ".")
    ensures tail == if idents == [] then dx else dx + ['.'] + Join(idents, ".")
  {
    if rest != "" { assert rest == ['.'] + rest[1..]; }
  }

  /** The identifiers are what the dots after the first character separate. */
  lemma {:induction false} IdentsAreSplit(x: string)
    requires x != ""
    ensures Idents(x) == Split(x[1..], '.')
    decreases |x|
  {
    var (dx, rest) := NextIdent(x[1..]);
    if rest == "" {
      assert dx == x[1..];
      SplitWhole(dx, '.');
    } else {
      assert x[1..] == dx + "." + rest[1..];
      SplitWhole(dx, '.');
      SplitAppend(dx, rest[1..], '.');
      IdentsAreSplit(rest);
    }
  }

  lemma {:induction false} IdentsCompared(x: string, y: string)
    requires Idents(x) != Idents(y)
    ensures CompareIdents(x, y) == CompareLists(CompareIdent, Idents(x), Idents(y))
    decreases |x|
  {
    if x != "" && y != "" {
      var (dx, restX) := NextIdent(x[1..]);
      var (dy, restY) := NextIdent(y[1..]);
      assert Idents(x)[1..] == Idents(restX) && Idents(y)[1..] == Idents(restY);
      if dx == dy { IdentsCompared(restX, restY); }
    }
  }

  predicate IsPrerelease(x: string) { x == "" || x[0] == '-' }

  lemma {:induction false} SameIdents(x: string, y: string)
    requires IsPrerelease(x) && IsPrerelease(y)
    ensures x == y <==> Idents(x) == Idents(y)
  {
    hide Join, NextIdent;
    if x != "" && y != "" {
      IdentsRejoin(x);
      IdentsRejoin(y);
      assert x == ['-'] + x[1..] && y == ['-'] + y[1..];
    }
  }

  /** A version without a pre-release part comes after those with one. */
  lemma {:induction false} PrereleaseCompared(x: string, y: string)
    requires IsPrerelease(x) && IsPrerelease(y)
    ensures ComparePrerelease(x, y) ==
      if x != "" && y != "" then CompareLists(CompareIdent, Idents(x), Idents(y))
      else if x == y then 0 else if x == "" then 1 else -1
  {
    SameIdents(x, y);
    if x != y { IdentsCompared(x, y); }
  }

  lemma PrereleaseFlip(x: string, y: string)
    requires IsPrerelease(x) && IsPrerelease(y)
    ensures ComparePrerelease(x, y) == -ComparePrerelease(y, x)
    ensures ComparePrerelease(x, y) == 0 <==> x == y
  {
    PrereleaseCompared(x, y);
    PrereleaseCompared(y, x);
    CompareIdentIsComparator();
    ListsFlip(CompareIdent, Idents(x), Idents(y));
    SameIdents(x, y);
  }

  lemma PrereleaseTransitive(x: string, y: string, z: string)
    requires IsPrerelease(x) && IsPrerelease(y) && IsPrerelease(z)
    requires ComparePrerelease(x, y) < 0 && ComparePrerelease(y, z) < 0
    ensures ComparePrerelease(x, z) < 0
  {
    PrereleaseCompared(x, y);
    PrereleaseCompared(y, z);
    PrereleaseCompared(x, z);
    CompareIdentIsComparator();
    if z != "" { ListsTransitive(CompareIdent, Idents(x), Idents(y), Idents(z)); }
  }

  // ----- what Parse accepts -----

  /** A decimal integer without extra leading zeros. */
  predicate Numeral(s: string) { s != "" && IsNum(s) && !IsBadNum(s) }

  /** A non-empty identifier that is no number with leading zeros. */
  predicate GoodIdent(s: string) { s != "" && !IsBadNum(s) }

  ghost predicate WellFormed(a: Version) {
    && Numeral(a.major) && Numeral(a.minor) && Numeral(a.patch) && IsPrerelease(a.prerelease)
    && forall s :: s in Idents(a.prerelease) ==> GoodIdent(s)
  }

  lemma {:induction false} DigitsOnly(s: string)
    requires forall i :: 0 <= i < |s| ==> IsDigit(s[i])
    ensures IsNum(s)
  {
    if s != "" { DigitsOnly(s[1..]); }
  }

  lemma IntIsNumeral(v: string)
    ensures ParseInt(v).Some? ==> Numeral(ParseInt(v).value.0)
  {
    DigitsOnly(v[..DigitRun(v)]);
  }

  lemma {:induction false} FirstIdent(dx: string, rest: string)
    requires '.' !in dx && (rest == "" || rest[0] == '.')
    ensures NextIdent(dx + rest) == (dx, rest)
  {
    IndexAfter(dx, rest, '.');
  }

  lemma {:induction false} IdentsCons(c: char, dx: string, rest: string)
    requires '.' !in dx && (rest == "" || rest[0] == '.')
    ensures Idents([c] + dx + rest) == [dx] + Idents(rest)
  {
    assert ([c] + dx + rest)[1..] == dx + rest;
    FirstIdent(dx, rest);
  }

  lemma {:induction false} GoodFirst(c: char, dx: string, rest: string)
    requires '.' !in dx && GoodIdent(dx) && (rest == "" || rest[0] == '.')
    requires rest != "" ==> forall s :: s in Idents(rest) ==> GoodIdent(s)
    ensures forall s :: s in Idents([c] + dx + rest) ==> GoodIdent(s)
  {
    hide GoodIdent;
    IdentsCons(c, dx, rest);
    assert Idents("") == [];
  }

  /** Every identifier the scan passes is good. */
  lemma {:induction false} ScannedAreGood(v: string, start: nat, i: nat)
    requires 1 <= start <= i <= |v| && '.' !in v[start..i]
    requires ScanIdents(v, '+', false, start, i).Some?
    ensures var end := ScanIdents(v, '+', false, start, i).value;
            forall s :: s in Idents(v[start - 1..end]) ==> GoodIdent(s)
    decreases |v| - i
  {
    hide IsBadNum, IsIdentChar, NextIdent, Idents;
    var end, dx := ScanIdents(v, '+', false, start, i).value, v[start..i];
    if i == |v| || v[i] == '+' {
      assert v[start - 1..end] == [v[start - 1]] + dx + "";
      GoodFirst(v[start - 1], dx, "");
    } else if v[i] == '.' {
      ScannedAreGood(v, i + 1, i + 1);
      assert v[start - 1..end] == [v[start - 1]] + dx + v[i..end];
      GoodFirst(v[start - 1], dx, v[i..end]);
    } else {
      assert v[start..i + 1] == dx + [v[i]];
      ScannedAreGood(v, start, i + 1);
    }
  }

  lemma PrereleaseIsGood(v: string)
    requires ParsePrerelease(v).Some?
    ensures var x := ParsePrerelease(v).value.0;
            IsPrerelease(x) && forall s :: s in Idents(x) ==> GoodIdent(s)
  {
    if v != "" && v[0] == '-' { ScannedAreGood(v, 1, 1); }
  }

  lemma ParsedPatch(major: string, minor: string, v: string)
    requires ParsePatch(major, minor, v).Some? && Numeral(major) && Numeral(minor)
    ensures WellFormed(ParsePatch(major, minor, v).value)
  {
    if v == "" {
      DigitsOnly("0");
    } else {
      IntIsNumeral(v[1..]);
      PrereleaseIsGood(ParseInt(v[1..]).value.1);
    }
  }

  lemma ParsedIsWellFormed(v: string)
    requires IsValid(v)
    ensures WellFormed(Parse(v).value)
  {
    DigitsOnly("0");
    IntIsNumeral(v[1..]);
    var (major, rest) := ParseInt(v[1..]).value;
    if rest != "" {
      IntIsNumeral(rest[1..]);
      var (minor, rest') := ParseInt(rest[1..]).value;
      ParsedPatch(major, minor, rest');
    }
  }

  // ----- the order of versions -----

  lemma VersionsFlip(a: Version, b: Version)
    requires WellFormed(a) && WellFormed(b)
    ensures CompareVersions(a, b) == -CompareVersions(b, a)
    ensures CompareVersions(a, b) == 0 <==> a == b
  {
    CompareIntIsComparator();
    PrereleaseFlip(a.prerelease, b.prerelease);
  }

  lemma VersionsTransitive(a: Version, b: Version, c: Version)
    requires WellFormed(a) && WellFormed(b) && WellFormed(c)
    requires CompareVersions(a, b) < 0 && CompareVersions(b, c) < 0
    ensures CompareVersions(a, c) < 0
  {
    CompareIntIsComparator();
    PrereleaseFlip(a.prerelease, b.prerelease);
    PrereleaseFlip(b.prerelease, c.prerelease);
    if ComparePrerelease(a.prerelease, b.prerelease) < 0 && ComparePrerelease(b.prerelease, c.prerelease) < 0 {
      PrereleaseTransitive(a.prerelease, b.prerelease, c.prerelease);
    }
  }

  /** Comparison is a total preorder; only versions that differ in build metadata, or invalid ones, are tied. */
  lemma CompareIsTotalPreorder(u: string, v: string, w: string)
    ensures Compare(u, v) == -Compare(v, u)
    ensures Compare(u, v) == 0 <==> Parse(u) == Parse(v)
    ensures Compare(u, v) <= 0 && Compare(v, w) <= 0 ==> Compare(u, w) <= 0
    ensures !IsValid(u) ==> Compare(u, v) <= 0
  {
    if IsValid(u) { ParsedIsWellFormed(u); }
    if IsValid(v) { ParsedIsWellFormed(v); }
    if IsValid(w) { ParsedIsWellFormed(w); }
    if IsValid(u) && IsValid(v) {
      VersionsFlip(Parse(u).value, Parse(v).value);
      if IsValid(w) {
        VersionsFlip(Parse(v).value, Parse(w).value);
        if Compare(u, v) < 0 && Compare(v, w) < 0 {
          VersionsTransitive(Parse(u).value, Parse(v).value, Parse(w).value);
        }
      }
    }
  }

  // ----- which text is which version -----

  /** A decimal integer without extra leading zeros, by its characters. */
  ghost predicate IsDecimal(s: string) {
    s != "" && (forall c :: c in s ==> '0' <= c <= '9') && (|s| > 1 ==> s[0] != '0')
  }

  ghost predicate IsWord(s: string) {
    s != "" && forall c :: c in s ==> '0' <= c <= '9' || 'A' <= c <= 'Z' || 'a' <= c <= 'z' || c == '-'
  }

  /** A word that may not be a number with leading zeros if the list is strict. */
  ghost predicate Allowed(s: string, strict: bool) {
    IsWord(s) && (strict && (forall c :: c in s ==> '0' <= c <= '9') ==> IsDecimal(s))
  }

  /** Words separated by dots. */
  ghost predicate Dotted(t: string, strict: bool) { forall w :: w in Split(t, '.') ==> Allowed(w, strict) }

  ghost predicate PrereleaseText(p: string) { p == "" || (p[0] == '-' && Dotted(p[1..], true)) }

  ghost predicate BuildText(b: string) { b == "" || (b[0] == '+' && Dotted(b[1..], false)) }

  /** A version as it is written; what is left out of its end counts as zero. */
  ghost predicate Writes(v: string, a: Version) {
    && IsDecimal(a.major) && IsDecimal(a.minor) && IsDecimal(a.patch)
    && (|| (v == "v" + a.major && a.minor == "0" && a.patch == "0" && a.prerelease == "")
        || (v == "v" + a.major + "." + a.minor && a.patch == "0" && a.prerelease == "")
        || exists build :: PrereleaseText(a.prerelease) && BuildText(build)
             && v == "v" + a.major + "." + a.minor + "." + a.patch + a.prerelease + build)
  }

  lemma IsNumIff(s: string)
    ensures IsNum(s) <==> forall c :: c in s ==> '0' <= c <= '9'
  {
    if forall c :: c in s ==> '0' <= c <= '9' {
      forall i | 0 <= i < |s| ensures IsDigit(s[i]) { assert s[i] in s; }
      DigitsOnly(s);
    }
  }

  lemma AllowedIff(s: string, allowBadNum: bool)
    requires forall c :: c in s ==> IsIdentChar(c)
    ensures Allowed(s, !allowBadNum) <==> s != "" && (allowBadNum || !IsBadNum(s))
  {
    IsNumIff(s);
  }

  lemma ParseIntIff(v: string, n: string, rest: string)
    ensures ParseInt(v) == Some((n, rest)) <==> IsDecimal(n) && v == n + rest && (rest == "" || !('0' <= rest[0] <= '9'))
  {
    var i := DigitRun(v);
    if IsDecimal(n) && v == n + rest && (rest == "" || !('0' <= rest[0] <= '9')) {
      assert forall j :: 0 <= j < |n| ==> v[j] == n[j] && n[j] in n;
      assert rest != "" ==> v[|n|] == rest[0];
      assert v[..i] == n && v[i..] == rest;
    }
    if ParseInt(v) == Some((n, rest)) { IsNumIff(n); DigitsOnly(n); }
  }

  lemma {:induction false} DottedAppend(s: string, t: string, strict: bool)
    ensures Dotted(s + "." + t, strict) <==> Dotted(s, strict) && Dotted(t, strict)
  {
    hide Allowed;
    SplitAppend(s, t, '.');
    var a, b := Split(s, '.'), Split(t, '.');
    assert forall w :: w in a + b <==> w in a || w in b;
  }

  lemma {:induction false} DottedOne(s: string, strict: bool)
    requires '.' !in s
    ensures Dotted(s, strict) <==> Allowed(s, strict)
  {
    SplitWhole(s, '.');
  }

  /** Only dots and the characters of words occur. */
  lemma {:induction false} DottedCharacters(t: string, strict: bool, k: nat)
    requires Dotted(t, strict) && k < |t|
    ensures t[k] == '.' || IsIdentChar(t[k])
  {
    if i :| 0 <= i < |t| && t[i] == '.' {
      var s, rest := t[..i], t[i + 1..];
      assert t == s + "." + rest;
      DottedAppend(s, rest, strict);
      if k < i { DottedCharacters(s, strict, k); } else if k > i { DottedCharacters(rest, strict, k - i - 1); }
    } else {
      assert '.' !in t;
      DottedOne(t, strict);
      assert t[k] in t;
    }
  }

  /** The scan ends where the dotted list ends. */
  lemma {:induction false} ScanIff(v: string, stop: char, allowBadNum: bool, start: nat, i: nat, end: nat)
    requires start <= i <= |v| && stop != '.' && !IsIdentChar(stop)
    requires forall c :: c in v[start..i] ==> IsIdentChar(c)
    ensures ScanIdents(v, stop, allowBadNum, start, i) == Some(end) <==>
      i <= end <= |v| && (end == |v| || v[end] == stop) && Dotted(v[start..end], !allowBadNum)
    decreases |v| - i
  {
    hide IsIdentChar, IsBadNum, Dotted, Allowed;
    var word := v[start..i];
    WordSoFar(word, allowBadNum);
    if i < end <= |v| && v[i] != '.' && (v[i] == stop || !IsIdentChar(v[i])) {
      assert v[start..end][i - start] == v[i];
      if Dotted(v[start..end], !allowBadNum) { DottedCharacters(v[start..end], !allowBadNum, i - start); }
    } else if i < |v| && v[i] == '.' {
      assert v[i + 1..i + 1] == "";
      ScanIff(v, stop, allowBadNum, i + 1, i + 1, end);
      if i < end <= |v| {
        CutAt(v, start, i, end);
        DottedAppend(word, v[i + 1..end], !allowBadNum);
      }
    } else if i < |v| && v[i] != stop && IsIdentChar(v[i]) {
      assert v[start..i + 1] == word + [v[i]];
      ScanIff(v, stop, allowBadNum, start, i + 1, end);
    }
  }

  lemma CutAt(v: string, start: nat, i: nat, end: nat)
    requires start <= i < end <= |v|
    ensures v[start..end] == v[start..i] + [v[i]] + v[i + 1..end]
  {
  }

  lemma {:induction false} WordSoFar(word: string, allowBadNum: bool)
    requires forall c :: c in word ==> IsIdentChar(c)
    ensures Dotted(word, !allowBadNum) <==> word != "" && (allowBadNum || !IsBadNum(word))
  {
    assert !IsIdentChar('.');
    DottedOne(word, !allowBadNum);
    AllowedIff(word, allowBadNum);
  }

  lemma {:induction false} ParsePrereleaseIff(v: string, p: string, rest: string)
    requires p == "" ==> rest == "" || rest[0] != '-'
    ensures ParsePrerelease(v) == Some((p, rest)) <==>
      v == p + rest && PrereleaseText(p) && (p != "" ==> rest == "" || rest[0] == '+')
  {
    hide Dotted, ScanIdents;
    if v != "" && v[0] == '-' {
      var end := |p|;
      assert v[1..1] == "";
      ScanIff(v, '+', false, 1, 1, end);
      if end <= |v| && p == v[..end] && end >= 1 {
        assert v[1..end] == p[1..];
      }
      assert v == p + rest ==> p == v[..end] && rest == v[end..];
    }
  }

  lemma {:induction false} BuildIff(b: string)
    ensures IsBuild(b) <==> BuildText(b)
  {
    hide Dotted, ScanIdents;
    if b != "" {
      assert b[1..1] == "" && b[1..|b|] == b[1..];
      ScanIff(b, '+', true, 1, 1, |b|);
    }
  }

  /** What may follow the patch number. */
  ghost predicate SuffixText(v: string, prerelease: string) {
    exists build :: PrereleaseText(prerelease) && BuildText(build) && v == prerelease + build
  }

  /** What may follow the minor number, and what may follow the major number. */
  ghost predicate PatchText(v: string, a: Version) {
    IsDecimal(a.patch) && (|| (v == "" && a.patch == "0" && a.prerelease == "")
                           || exists rest :: v == "." + a.patch + rest && SuffixText(rest, a.prerelease))
  }

  ghost predicate MinorText(v: string, a: Version) {
    IsDecimal(a.minor) && (|| (v == "" && a.minor == "0" && a.patch == "0" && a.prerelease == "")
                           || exists rest :: v == "." + a.minor + rest && PatchText(rest, a))
  }

  lemma {:induction false} SuffixIff(major: string, minor: string, patch: string, v: string, a: Version)
    ensures ParseSuffix(major, minor, patch, v) == Some(a) <==>
      a == Version(major, minor, patch, a.prerelease) && SuffixText(v, a.prerelease)
  {
    hide ParsePrerelease, PrereleaseText, IsBuild, BuildText;
    var r := ParsePrerelease(v);
    if r.Some? {
      PrereleaseCut(v, r.value.0, r.value.1);
      BuildIff(r.value.1);
    }
    if build :| PrereleaseText(a.prerelease) && BuildText(build) && v == a.prerelease + build {
      BuildStart(build);
      ParsePrereleaseIff(v, a.prerelease, build);
      BuildIff(build);
    }
  }

  lemma BuildStart(build: string)
    requires BuildText(build)
    ensures build == "" || build[0] == '+'
  {
  }

  lemma {:induction false} PrereleaseCut(v: string, p: string, rest: string)
    requires ParsePrerelease(v) == Some((p, rest))
    ensures v == p + rest && PrereleaseText(p)
  {
    if v != "" && v[0] == '-' { assert p != ""; }
    ParsePrereleaseIff(v, p, rest);
  }

  lemma SuffixStart(v: string, prerelease: string)
    requires SuffixText(v, prerelease)
    ensures v == "" || v[0] == '-' || v[0] == '+'
  {
    var build :| PrereleaseText(prerelease) && BuildText(build) && v == prerelease + build;
    assert v != "" ==> v[0] == if prerelease != "" then prerelease[0] else build[0];
  }

  lemma IntNext(v: string, n: string, rest: string)
    requires v != "" && v[0] == '.'
    ensures ParseInt(v[1..]) == Some((n, rest)) <==>
      IsDecimal(n) && v == "." + n + rest && (rest == "" || !('0' <= rest[0] <= '9'))
  {
    ParseIntIff(v[1..], n, rest);
    assert v == "." + v[1..];
    assert v == "." + n + rest ==> v[1..] == n + rest;
    assert "." + n + rest == "." + (n + rest);
  }

  lemma {:induction false} PatchIff(major: string, minor: string, v: string, a: Version)
    ensures ParsePatch(major, minor, v) == Some(a) <==> a.major == major && a.minor == minor && PatchText(v, a)
  {
    hide ParseInt, SuffixText, ParseSuffix;
    assert IsDecimal("0") by { assert forall c :: c in "0" ==> c == '0'; }
    if v != "" && v[0] == '.' {
      var r := ParseInt(v[1..]);
      if r.Some? {
        IntNext(v, r.value.0, r.value.1);
        SuffixIff(major, minor, r.value.0, r.value.1, a);
      }
      if rest :| v == "." + a.patch + rest && SuffixText(rest, a.prerelease) && IsDecimal(a.patch) {
        SuffixStart(rest, a.prerelease);
        IntNext(v, a.patch, rest);
        SuffixIff(major, minor, a.patch, rest, a);
      }
    }
  }

  lemma PatchStart(v: string, a: Version)
    requires PatchText(v, a)
    ensures v == "" || v[0] == '.'
  {
  }

  lemma {:induction false} MinorIff(major: string, v: string, a: Version)
    ensures ParseMinor(major, v) == Some(a) <==> a.major == major && MinorText(v, a) && IsDecimal(a.patch)
  {
    hide ParseInt, ParsePatch, SuffixText;
    assert IsDecimal("0") by { assert forall c :: c in "0" ==> c == '0'; }
    if v != "" && v[0] == '.' {
      var r := ParseInt(v[1..]);
      if r.Some? {
        IntNext(v, r.value.0, r.value.1);
        PatchIff(major, r.value.0, r.value.1, a);
      }
      if rest :| v == "." + a.minor + rest && PatchText(rest, a) && IsDecimal(a.minor) {
        PatchStart(rest, a);
        IntNext(v, a.minor, rest);
        PatchIff(major, a.minor, rest, a);
      }
    }
  }

  lemma MinorStart(v: string, a: Version)
    requires MinorText(v, a)
    ensures v == "" || v[0] == '.'
  {
  }

  lemma {:induction false} ParseText(v: string, a: Version)
    ensures Parse(v) == Some(a) <==>
      IsDecimal(a.major) && IsDecimal(a.patch) && exists rest :: v == "v" + a.major + rest && MinorText(rest, a)
  {
    hide ParseInt, ParseMinor, MinorText;
    if v != "" && v[0] == 'v' {
      var r := ParseInt(v[1..]);
      assert v == "v" + v[1..];
      if r.Some? {
        ParseIntIff(v[1..], r.value.0, r.value.1);
        MinorIff(r.value.0, r.value.1, a);
        assert v == "v" + r.value.0 + r.value.1;
      }
      if rest :| v == "v" + a.major + rest && MinorText(rest, a) && IsDecimal(a.major) && IsDecimal(a.patch) {
        MinorStart(rest, a);
        assert v[1..] == a.major + rest;
        ParseIntIff(v[1..], a.major, rest);
        MinorIff(a.major, rest, a);
      }
    }
  }

  lemma Regroup(major: string, minor: string, patch: string, prerelease: string, build: string)
    ensures "v" + major + "." + minor + "." + patch + prerelease + build
         == "v" + major + ("." + minor + ("." + patch + (prerelease + build)))
  {
    var tail := "." + patch + (prerelease + build);
    assert "." + patch + prerelease + build == tail;
    assert "v" + major + "." + minor + tail == "v" + major + ("." + minor + tail);
    assert "v" + major + "." + minor + "." + patch + prerelease + build == "v" + major + "." + minor + tail;
  }

  lemma {:induction false} WrittenIsText(v: string, a: Version)
    requires Writes(v, a)
    ensures exists rest :: v == "v" + a.major + rest && MinorText(rest, a)
  {
    hide IsDecimal, PrereleaseText, BuildText;
    if v == "v" + a.major && a.minor == "0" && a.patch == "0" && a.prerelease == "" {
      assert v == "v" + a.major + "" && MinorText("", a);
    } else if v == "v" + a.major + "." + a.minor && a.patch == "0" && a.prerelease == "" {
      assert PatchText("", a) && "." + a.minor == "." + a.minor + "";
      assert MinorText("." + a.minor, a);
      assert v == "v" + a.major + ("." + a.minor);
    } else {
      var build :| PrereleaseText(a.prerelease) && BuildText(build)
        && v == "v" + a.major + "." + a.minor + "." + a.patch + a.prerelease + build;
      Regroup(a.major, a.minor, a.patch, a.prerelease, build);
      var suffix := a.prerelease + build;
      assert SuffixText(suffix, a.prerelease);
      var patch := "." + a.patch + suffix;
      assert PatchText(patch, a);
      assert MinorText("." + a.minor + patch, a);
    }
  }

  lemma {:induction false} TextIsWritten(v: string, a: Version, rest: string)
    requires IsDecimal(a.major) && IsDecimal(a.patch) && v == "v" + a.major + rest && MinorText(rest, a)
    ensures Writes(v, a)
  {
    hide IsDecimal, PrereleaseText, BuildText;
    if rest == "" {
      assert v == "v" + a.major;
    } else {
      var patch :| rest == "." + a.minor + patch && PatchText(patch, a);
      if patch == "" {
        assert v == "v" + a.major + "." + a.minor;
      } else {
        var suffix :| patch == "." + a.patch + suffix && SuffixText(suffix, a.prerelease);
        var build :| PrereleaseText(a.prerelease) && BuildText(build) && suffix == a.prerelease + build;
        Regroup(a.major, a.minor, a.patch, a.prerelease, build);
      }
    }
  }

  /** A text parses to a version exactly when it writes it. */
  lemma {:induction false} ParseIff(v: string, a: Version)
    ensures Parse(v) == Some(a) <==> Writes(v, a)
  {
    hide IsDecimal, Parse, MinorText;
    ParseText(v, a);
    if Writes(v, a) { WrittenIsText(v, a); }
    if rest :| v == "v" + a.major + rest && MinorText(rest, a) && IsDecimal(a.major) && IsDecimal(a.patch) {
      TextIsWritten(v, a, rest);
    }
  }

  // ----- precedence, section 11 of Semantic Versioning 2.0.0 -----

  function Digit(c: char): (d: nat)
    requires IsDigit(c)
    ensures d < 10
  {
    c as int - '0' as int
  }

  /** The number a numeral stands for. */
  function Value(s: string): nat
    requires IsNum(s)
  {
    if s == "" then 0 else Digit(s[0]) * Power(10, |s| - 1) + Value(s[1..])
  }

  lemma {:induction false} ValueSnoc(s: string, c: char)
    requires IsNum(s) && IsDigit(c)
    ensures IsNum(s + [c]) && Value(s + [c]) == 10 * Value(s) + Digit(c)
  {
    DigitsOnly(s + [c]);
    if s == "" {
      assert Value([c]) == Digit(c) * Power(10, 0) + Value([c][1..]);
    } else {
      DigitsOnly(s[1..]);
      ValueSnoc(s[1..], c);
      assert (s + [c])[1..] == s[1..] + [c];
      assert Power(10, |s|) == 10 * Power(10, |s| - 1);
      TenTimes(Digit(s[0]), Power(10, |s| - 1));
    }
  }

  lemma TenTimes(d: nat, p: nat)
    ensures d * (10 * p) == 10 * (d * p)
  {
  }

  lemma {:induction false} ValueIsDecimal(s: string)
    requires IsNum(s)
    ensures AllDigits(s) && Value(s) == NumberOf(s)
  {
    if s != "" {
      var init := s[..|s| - 1];
      DigitsOnly(init);
      ValueIsDecimal(init);
      ValueSnoc(init, s[|s| - 1]);
      assert s == init + [s[|s| - 1]];
    }
  }

  lemma Scale(a: nat, b: nat, p: nat)
    requires a < b
    ensures (a + 1) * p <= b * p && (a + 1) * p == a * p + p
  {
  }

  lemma {:induction false} ValueBound(s: string)
    requires IsNum(s)
    ensures Value(s) < Power(10, |s|)
  {
    if s != "" {
      ValueBound(s[1..]);
      Scale(Digit(s[0]), 10, Power(10, |s| - 1));
    }
  }

  lemma {:induction false} PowerGrows(m: nat, n: nat)
    requires m <= n
    ensures Power(10, m) <= Power(10, n)
  {
    if m < n { PowerGrows(m, n - 1); }
  }

  lemma {:induction false} LongerIsGreater(x: string, y: string)
    requires Numeral(x) && Numeral(y) && |x| < |y|
    ensures Value(x) < Value(y)
  {
    ValueBound(x);
    PowerGrows(|x|, |y| - 1);
    Scale(0, Digit(y[0]), Power(10, |y| - 1));
  }

  lemma {:induction false} SameLengthLess(x: string, y: string)
    requires IsNum(x) && IsNum(y) && |x| == |y|
    ensures Less(x, y) <==> Value(x) < Value(y)
  {
    if x != "" {
      if x[0] == y[0] {
        SameLengthLess(x[1..], y[1..]);
      } else {
        ValueBound(x[1..]);
        ValueBound(y[1..]);
        if x[0] < y[0] {
          Scale(Digit(x[0]), Digit(y[0]), Power(10, |x| - 1));
        } else {
          Scale(Digit(y[0]), Digit(x[0]), Power(10, |x| - 1));
        }
      }
    }
  }

  /** Comparing by length and then by characters compares the numbers. */
  lemma {:induction false} CompareIntIsNumeric(x: string, y: string)
    requires Numeral(x) && Numeral(y)
    ensures CompareInt(x, y) < 0 <==> Value(x) < Value(y)
    ensures CompareInt(x, y) == 0 <==> Value(x) == Value(y)
  {
    if |x| < |y| {
      LongerIsGreater(x, y);
    } else if |y| < |x| {
      LongerIsGreater(y, x);
    } else {
      SameLengthLess(x, y);
      SameLengthLess(y, x);
      LessTotal(x, y);
    }
  }

  predicate PrecedesIdent(a: string, b: string) {
    if IsNum(a) && IsNum(b) then Value(a) < Value(b)
    else if IsNum(a) || IsNum(b) then IsNum(a)
    else Less(a, b)
  }

  predicate PrecedesIdents(xs: seq<string>, ys: seq<string>) {
    ys != [] && (xs == [] || PrecedesIdent(xs[0], ys[0]) || (xs[0] == ys[0] && PrecedesIdents(xs[1..], ys[1..])))
  }

  predicate PrecedesPrerelease(x: string, y: string) {
    x != "" && (y == "" || PrecedesIdents(Idents(x), Idents(y)))
  }

  ghost predicate Precedes(a: Version, b: Version)
    requires WellFormed(a) && WellFormed(b)
  {
    if Value(a.major) != Value(b.major) then Value(a.major) < Value(b.major)
    else if Value(a.minor) != Value(b.minor) then Value(a.minor) < Value(b.minor)
    else if Value(a.patch) != Value(b.patch) then Value(a.patch) < Value(b.patch)
    else PrecedesPrerelease(a.prerelease, b.prerelease)
  }

  lemma CompareIdentIsPrecedence(a: string, b: string)
    requires GoodIdent(a) && GoodIdent(b)
    ensures CompareIdent(a, b) < 0 <==> PrecedesIdent(a, b)
  {
    if IsNum(a) && IsNum(b) { CompareIntIsNumeric(a, b); }
    if a == b && !IsNum(a) && Less(a, b) { LessAsymmetric(a, b); }
  }

  lemma {:induction false} CompareListsIsPrecedence(xs: seq<string>, ys: seq<string>)
    requires forall s :: s in xs + ys ==> GoodIdent(s)
    ensures CompareLists(CompareIdent, xs, ys) < 0 <==> PrecedesIdents(xs, ys)
  {
    if xs != [] && ys != [] {
      assert xs[0] in xs + ys && ys[0] in xs + ys;
      CompareIdentIsPrecedence(xs[0], ys[0]);
      assert forall s :: s in xs[1..] + ys[1..] ==> s in xs + ys;
      CompareListsIsPrecedence(xs[1..], ys[1..]);
      assert xs == [xs[0]] + xs[1..] && ys == [ys[0]] + ys[1..];
    }
  }

  lemma CompareVersionsIsPrecedence(a: Version, b: Version)
    requires WellFormed(a) && WellFormed(b)
    ensures CompareVersions(a, b) < 0 <==> Precedes(a, b)
  {
    CompareIntIsNumeric(a.major, b.major);
    CompareIntIsNumeric(a.minor, b.minor);
    CompareIntIsNumeric(a.patch, b.patch);
    PrereleaseCompared(a.prerelease, b.prerelease);
    CompareListsIsPrecedence(Idents(a.prerelease), Idents(b.prerelease));
  }

  /** The textual comparison decides precedence; an invalid version comes before every valid one. */
  lemma CompareIsPrecedence(v: string, w: string)
    ensures IsValid(v) ==> WellFormed(Parse(v).value)
    ensures IsValid(w) ==> WellFormed(Parse(w).value)
    ensures Compare(v, w) < 0 <==> IsValid(w) && (IsValid(v) ==> Precedes(Parse(v).value, Parse(w).value))
  {
    if IsValid(v) { ParsedIsWellFormed(v); }
    if IsValid(w) { ParsedIsWellFormed(w); }
    if IsValid(v) && IsValid(w) { CompareVersionsIsPrecedence(Parse(v).value, Parse(w).value); }
  }
}
