/** Requirement strings: parsed into and/or/comparison trees, then evaluated. */
module Constraints {
  import opened Wrappers
  import opened Numbers
  import opened Sequences
  import opened Strings
  import Semver

  datatype Property = StringProperty(name: string, value: string) | VersionProperty(name: string, value: string)

  datatype Constraint =
    | Always
    | Binary(left: Property, operator: string, right: string)
    | And(operands: seq<Constraint>)
    | Or(operands: seq<Constraint>)

  /** The supported properties; a nil entry counts as unsupported. */
  type Properties = map<string, Option<Property>>

  // ----- properties -----

  function EnsurePrefix(s: string, prefix: string): string { prefix + TrimPrefix(s, prefix) }

  predicate IsVersion(value: string) { Semver.IsValid(EnsurePrefix(value, "v")) }

  /** Whether the property can be compared with the value. */
  predicate Accepts(p: Property, value: string) { p.VersionProperty? ==> IsVersion(value) }

  function CompareTo(p: Property, other: string): Result<int> {
    match p
    case StringProperty(_, value) => Ok(if Less(value, other) then -1 else if Less(other, value) then 1 else 0)
    case VersionProperty(name, value) =>
      if !Accepts(p, other) then Err("invalid value for " + name)
      else Ok(Semver.Compare(EnsurePrefix(value, "v"), EnsurePrefix(other, "v")))
  }

  // ----- evaluating -----

  function Eval(left: Property, operator: string, right: string): Result<bool> {
    match CompareTo(left, right)
    case Err(message) => Err(message)
    case Ok(compare) =>
      if operator == "=" then Ok(compare == 0)
      else if operator == "!=" then Ok(compare != 0)
      else if operator == "<" then Ok(compare < 0)
      else if operator == "<=" then Ok(compare <= 0)
      else if operator == ">" then Ok(compare > 0)
      else if operator == ">=" then Ok(compare >= 0)
      else Err("invalid operator " + operator)
  }

  /** A version requirement compares precedence; a property value that is no version comes before all versions. */
  lemma VersionComparison(name: string, value: string, operator: string, right: string)
    requires IsVersion(right)
    ensures var p, v, w := VersionProperty(name, value), EnsurePrefix(value, "v"), EnsurePrefix(right, "v");
            var below := Semver.IsValid(v) ==> Precedes(v, w);
            var above := Semver.IsValid(v) && Precedes(w, v);
      && (Eval(p, "<", right) == Ok(true) <==> below) && (Eval(p, ">=", right) == Ok(true) <==> !below)
      && (Eval(p, ">", right) == Ok(true) <==> above) && (Eval(p, "<=", right) == Ok(true) <==> !above)
      && (Eval(p, "=", right) == Ok(true) <==> Semver.Parse(v) == Semver.Parse(w))
      && (Eval(p, "!=", right) == Ok(true) <==> Semver.Parse(v) != Semver.Parse(w))
  {
    var v, w := EnsurePrefix(value, "v"), EnsurePrefix(right, "v");
    EvalBySign(VersionProperty(name, value), right, Semver.Compare(v, w));
    SignIsPrecedence(v, w);
  }

  /** A leading "v" is as good as none. */
  lemma VersionPrefix(s: string)
    ensures EnsurePrefix("v" + s, "v") == "v" + s
    ensures !("v" <= s) ==> EnsurePrefix(s, "v") == "v" + s
  {
    PrefixLaws(s, "v");
  }

  /** Comparing three numbers from the left. */
  predicate Below(a: (nat, nat, nat), b: (nat, nat, nat)) {
    a.0 < b.0 || (a.0 == b.0 && (a.1 < b.1 || (a.1 == b.1 && a.2 < b.2)))
  }

  ghost function NumbersOf(a: Semver.Version): (nat, nat, nat)
    requires Semver.IsDecimal(a.major) && Semver.IsDecimal(a.minor) && Semver.IsDecimal(a.patch)
  {
    DecimalDigits(a.major);
    DecimalDigits(a.minor);
    DecimalDigits(a.patch);
    (NumberOf(a.major), NumberOf(a.minor), NumberOf(a.patch))
  }

  lemma DecimalDigits(s: string)
    requires Semver.IsDecimal(s)
    ensures AllDigits(s) && Semver.IsNum(s) && Semver.Value(s) == NumberOf(s) && Semver.Numeral(s)
  {
    Semver.IsNumIff(s);
    Semver.ValueIsDecimal(s);
  }

  /** Versions without pre-release are compared by their numbers. */
  lemma NumbersDecide(v: string, w: string, a: Semver.Version, b: Semver.Version)
    requires Semver.Writes(v, a) && Semver.Writes(w, b) && a.prerelease == b.prerelease == ""
    ensures Semver.Compare(v, w) < 0 <==> Below(NumbersOf(a), NumbersOf(b))
    ensures Semver.Compare(v, w) > 0 <==> Below(NumbersOf(b), NumbersOf(a))
  {
    Semver.ParseIff(v, a);
    Semver.ParseIff(w, b);
    CompareNumbers(a.major, b.major);
    CompareNumbers(a.minor, b.minor);
    CompareNumbers(a.patch, b.patch);
  }

  lemma CompareNumbers(x: string, y: string)
    requires Semver.IsDecimal(x) && Semver.IsDecimal(y)
    ensures AllDigits(x) && AllDigits(y)
    ensures Semver.CompareInt(x, y) < 0 <==> NumberOf(x) < NumberOf(y)
    ensures Semver.CompareInt(x, y) > 0 <==> NumberOf(x) > NumberOf(y)
  {
    DecimalDigits(x);
    DecimalDigits(y);
    Semver.CompareIntIsNumeric(x, y);
  }

  /** A two-part version against another with the same major number: the minor numbers decide. */
  lemma MinorDecides(name: string, major: string, m: string, n: string)
    requires Semver.IsDecimal(major) && Semver.IsDecimal(m) && Semver.IsDecimal(n)
    ensures AllDigits(m) && AllDigits(n)
    ensures var p, right, x, y := VersionProperty(name, major + "." + m), major + "." + n, NumberOf(m), NumberOf(n);
      && Eval(p, "<", right) == Ok(x < y) && Eval(p, "<=", right) == Ok(x <= y) && Eval(p, "=", right) == Ok(x == y)
      && Eval(p, ">", right) == Ok(x > y) && Eval(p, ">=", right) == Ok(x >= y) && Eval(p, "!=", right) == Ok(x != y)
  {
    hide Eval, Semver.Compare, Semver.Parse;
    var v, w := major + "." + m, major + "." + n;
    TwoPart(major, m);
    TwoPart(major, n);
    var a, b := Semver.Version(major, m, "0", ""), Semver.Version(major, n, "0", "");
    DecimalDigits(m);
    DecimalDigits(n);
    NumbersDecide("v" + v, "v" + w, a, b);
    Semver.ParseIff("v" + w, b);
    EvalBySign(VersionProperty(name, v), w, Semver.Compare("v" + v, "v" + w));
  }

  lemma TwoPart(major: string, minor: string)
    requires Semver.IsDecimal(major) && Semver.IsDecimal(minor)
    ensures var s := major + "." + minor;
            EnsurePrefix(s, "v") == "v" + s && Semver.Writes("v" + s, Semver.Version(major, minor, "0", ""))
  {
    var s := major + "." + minor;
    assert s[0] == major[0] && major[0] in major;
    VersionPrefix(s);
    assert forall c :: c in "0" ==> c == '0';
    assert "v" + s == "v" + major + "." + minor;
  }

  lemma EvalBySign(p: Property, right: string, compare: int)
    requires CompareTo(p, right) == Ok(compare)
    ensures Eval(p, "<", right) == Ok(compare < 0) && Eval(p, ">=", right) == Ok(compare >= 0)
    ensures Eval(p, ">", right) == Ok(compare > 0) && Eval(p, "<=", right) == Ok(compare <= 0)
    ensures Eval(p, "=", right) == Ok(compare == 0) && Eval(p, "!=", right) == Ok(compare != 0)
  {
    hide CompareTo;
  }

  lemma SignIsPrecedence(v: string, w: string)
    requires Semver.IsValid(w)
    ensures Semver.Compare(v, w) < 0 <==> (Semver.IsValid(v) ==> Precedes(v, w))
    ensures Semver.Compare(v, w) > 0 <==> Semver.IsValid(v) && Precedes(w, v)
    ensures Semver.Compare(v, w) == 0 <==> Semver.Parse(v) == Semver.Parse(w)
  {
    Semver.CompareIsTotalPreorder(v, w, w);
    Semver.CompareIsPrecedence(v, w);
    Semver.CompareIsPrecedence(w, v);
  }

  ghost predicate Precedes(v: string, w: string)
    requires Semver.IsValid(v) && Semver.IsValid(w)
  {
    Semver.ParsedIsWellFormed(v);
    Semver.ParsedIsWellFormed(w);
    Semver.Precedes(Semver.Parse(v).value, Semver.Parse(w).value)
  }

  /** String properties compare as strings; anything but the six operators is refused. */
  lemma StringComparison(name: string, value: string, operator: string, right: string)
    ensures var p := StringProperty(name, value);
      && Eval(p, "=", right) == Ok(value == right) && Eval(p, "!=", right) == Ok(value != right)
      && Eval(p, "<", right) == Ok(Less(value, right)) && Eval(p, ">=", right) == Ok(!Less(value, right))
      && Eval(p, ">", right) == Ok(Less(right, value)) && Eval(p, "<=", right) == Ok(!Less(right, value))
      && (operator !in ["=", "!=", "<", "<=", ">", ">="] ==> Eval(p, operator, right).Err?)
      && CompareTo(p, right) in {Ok(-1), Ok(0), Ok(1)}
  {
    LessTotal(value, right);
    if Less(value, right) { LessAsymmetric(value, right); }
    if Less(right, value) { LessAsymmetric(right, value); }
  }

  predicate Satisfied(c: Constraint) {
    match c
    case Always => true
    case Binary(left, operator, right) => Eval(left, operator, right) == Ok(true)
    case And(operands) => forall o :: o in operands ==> Satisfied(o)
    case Or(operands) => exists o :: o in operands && Satisfied(o)
  }

  function Print(c: Constraint): string {
    match c
    case Always => "true"
    case Binary(left, operator, right) => left.name + operator + right
    case And(operands) => Join(PrintAll(operands), "&&")
    case Or(operands) => Join(PrintAll(operands), "||")
  }

  function PrintAll(operands: seq<Constraint>): seq<string> {
    seq(|operands|, i requires 0 <= i < |operands| => Print(operands[i]))
  }

  lemma PrintedOperands(a: Constraint, b: Constraint)
    ensures Print(And([a, b])) == Print(a) + "&&" + Print(b) && Print(Or([a, b])) == Print(a) + "||" + Print(b)
  {
    assert PrintAll([a, b]) == [Print(a)] + [Print(b)];
    JoinSnoc([Print(a)], Print(b), "&&");
    JoinSnoc([Print(a)], Print(b), "||");
  }

  /** The error of an unsatisfied constraint: a conjunction reports its first unsatisfied operand. */
  function Complaint(c: Constraint): string
    requires !Satisfied(c)
  {
    match c
    case Binary(left, operator, right) =>
      (match Eval(left, operator, right)
       case Err(message) => message
       case Ok(_) => "unsatisfied condition: " + Print(c) + " (" + left.name + "=" + left.value + ")")
    case And(operands) => Complaint(FirstUnsatisfied(operands))
    case Or(_) => Print(c) + " not met"
  }

  function FirstUnsatisfied(operands: seq<Constraint>): (o: Constraint)
    requires exists o :: o in operands && !Satisfied(o)
    ensures o in operands && !Satisfied(o)
  {
    if !Satisfied(operands[0]) then operands[0] else FirstUnsatisfied(operands[1..])
  }

  lemma {:induction false} FirstUnsatisfiedAt(operands: seq<Constraint>, i: nat)
    requires i < |operands| && !Satisfied(operands[i])
    requires forall k :: 0 <= k < i ==> Satisfied(operands[k])
    ensures FirstUnsatisfied(operands) == operands[i]
  {
    if i > 0 {
      assert operands[1..][i - 1] == operands[i];
      FirstUnsatisfiedAt(operands[1..], i - 1);
    }
  }

  method Assert(c: Constraint) returns (error: Option<string>)
    ensures error.None? <==> Satisfied(c)
    ensures error.Some? ==> error.value == Complaint(c)
  {
    hide Eval;
    match c
    case Always => return None;
    case Binary(left, operator, right) =>
      var satisfied := Eval(left, operator, right);
      if satisfied.Err? { return Some(satisfied.message); }
      if satisfied.value { return None; }
      return Some("unsatisfied condition: " + Print(c) + " (" + left.name + "=" + left.value + ")");
    case And(operands) =>
      for i := 0 to |operands|
        invariant forall k :: 0 <= k < i ==> Satisfied(operands[k])
      {
        error := Assert(operands[i]);
        if error.Some? {
          FirstUnsatisfiedAt(operands, i);
          return;
        }
      }
      return None;
    case Or(operands) =>
      for i := 0 to |operands|
        invariant forall k :: 0 <= k < i ==> !Satisfied(operands[k])
      {
        error := Assert(operands[i]);
        if error.None? { return; }
      }
      return Some(Print(c) + " not met");
  }

  // ----- parsing a comparison -----

  predicate IsOperatorChar(c: char) { c == '<' || c == '>' || c == '=' || c == '!' }

  /** In the order they are tried. */
  const OPERATORS: seq<string> := ["!=", "<=", ">=", "=", "<", ">"]

  /** The position of the first operator character, or the length. */
  function IndexOperator(s: string): (i: nat)
    ensures i <= |s| && (forall k :: 0 <= k < i ==> !IsOperatorChar(s[k]))
    ensures i < |s| ==> IsOperatorChar(s[i])
  {
    if s == "" || IsOperatorChar(s[0]) then 0 else 1 + IndexOperator(s[1..])
  }

  /** The first of `operators` that `s` starts with; "" if none. */
  function FirstPrefix(operators: seq<string>, s: string): (o: string)
    ensures HasPrefix(s, o)
  {
    if operators == [] then "" else if HasPrefix(s, operators[0]) then operators[0] else FirstPrefix(operators[1..], s)
  }

  function OperatorAt(s: string): (o: string)
    ensures HasPrefix(s, o)
  {
    FirstPrefix(OPERATORS, s)
  }

  lemma {:induction false} FirstPrefixCons(o: string, operators: seq<string>, s: string)
    ensures FirstPrefix([o] + operators, s) == if HasPrefix(s, o) then o else FirstPrefix(operators, s)
  {
    assert ([o] + operators)[1..] == operators;
  }

  lemma UnrollOperators(s: string)
    ensures OperatorAt(s) ==
      if HasPrefix(s, "!=") then "!=" else if HasPrefix(s, "<=") then "<=" else if HasPrefix(s, ">=") then ">="
      else if HasPrefix(s, "=") then "=" else if HasPrefix(s, "<") then "<" else if HasPrefix(s, ">") then ">" else ""
  {
    assert OPERATORS == ["!="] + (["<="] + ([">="] + (["="] + (["<"] + ([">"] + [])))));
    FirstPrefixCons("!=", ["<="] + ([">="] + (["="] + (["<"] + ([">"] + [])))), s);
    FirstPrefixCons("<=", [">="] + (["="] + (["<"] + ([">"] + []))), s);
    FirstPrefixCons(">=", ["="] + (["<"] + ([">"] + [])), s);
    FirstPrefixCons("=", ["<"] + ([">"] + []), s);
    FirstPrefixCons("<", [">"] + [], s);
    FirstPrefixCons(">", [], s);
  }

  lemma OneCharPrefix(s: string, c: char)
    ensures HasPrefix(s, [c]) <==> s != "" && s[0] == c
  {
    if s != "" { assert s[..1] == [s[0]]; }
  }

  lemma TwoCharPrefix(s: string, c: char, d: char)
    ensures HasPrefix(s, [c, d]) <==> |s| > 1 && s[0] == c && s[1] == d
  {
    if |s| > 1 { assert s[..2] == [s[0], s[1]]; }
  }

  /** The order of the attempts makes the longest operator win; only a bare '!' is none. */
  lemma OperatorAtIsLongest(s: string)
    requires s != "" && IsOperatorChar(s[0])
    ensures OperatorAt(s) ==
      if |s| > 1 && s[1] == '=' && s[0] != '=' then [s[0], '='] else if s[0] == '!' then "" else [s[0]]
  {
    UnrollOperators(s);
    TwoCharPrefix(s, '!', '=');
    TwoCharPrefix(s, '<', '=');
    TwoCharPrefix(s, '>', '=');
    OneCharPrefix(s, '=');
    OneCharPrefix(s, '<');
    OneCharPrefix(s, '>');
  }

  predicate Supported(properties: Properties, name: string) {
    name in properties && properties[name].Some?
  }

  /** The comparison a factor stands for; Ok(None) for a factor to be skipped. */
  function Parse(properties: Properties, condition: string): Result<Option<Constraint>> {
    var end := IndexOperator(condition);
    var name, rest := condition[..end], condition[end..];
    var value := rest[|OperatorAt(rest)|..];
    if TrimSpace(condition) == "" then Ok(None)
    else if rest == "" then Err("invalid constraint: " + condition)
    else if !Supported(properties, name) then Ok(None)
    else if !Accepts(properties[name].value, value) then Err("invalid value " + value)
    else Ok(Some(Binary(properties[name].value, OperatorAt(rest), value)))
  }

  /** What the caller's table of properties is meant to satisfy. */
  ghost predicate KeysAreNames(properties: Properties) {
    forall k :: Supported(properties, k) ==> properties[k].value.name == k
  }

  /** Printing a parsed comparison gives back the text. */
  lemma PrintOfParse(properties: Properties, condition: string)
    requires KeysAreNames(properties)
    requires Parse(properties, condition).Ok? && Parse(properties, condition).value.Some?
    ensures Print(Parse(properties, condition).value.value) == condition
  {
    var end := IndexOperator(condition);
    Pieces(condition, end, OperatorAt(condition[end..]));
    assert Supported(properties, condition[..end]);
  }

  lemma Pieces(s: string, i: nat, o: string)
    requires i <= |s| && HasPrefix(s[i..], o)
    ensures s == s[..i] + o + s[i..][|o|..]
  {
  }

  lemma {:induction false} IndexOperatorIs(name: string, rest: string)
    requires rest != "" && IsOperatorChar(rest[0]) && forall c :: c in name ==> !IsOperatorChar(c)
    ensures IndexOperator(name + rest) == |name|
  {
    if name == "" {
      assert name + rest == rest;
    } else {
      assert (name + rest)[1..] == name[1..] + rest && name[0] in name;
      IndexOperatorIs(name[1..], rest);
    }
  }

  lemma NotBlank(s: string, k: nat)
    requires k < |s| && IsOperatorChar(s[k])
    ensures TrimSpace(s) != ""
  {
    TrimSpaceBlank(s);
    assert s[k] in s && !IsSpace(s[k]);
  }

  /** The operator read back is the one written, unless '<' or '>' meets a value starting with '='. */
  lemma OperatorReadBack(operator: string, right: string)
    requires operator in OPERATORS
    ensures operator != "" && IsOperatorChar(operator[0])
    ensures OperatorAt(operator + right) == operator <==> !((operator == "<" || operator == ">") && HasPrefix(right, "="))
  {
    var s := operator + right;
    var i :| 0 <= i < |OPERATORS| && OPERATORS[i] == operator;
    assert i == 0 || i == 1 || i == 2 || i == 3 || i == 4 || i == 5;
    OneCharPrefix(right, '=');
    assert |operator| == 1 && right != "" ==> s[1] == right[0];
    OperatorAtIsLongest(s);
  }

  /** The text of a comparison splits where it was put together. */
  lemma ParseOfPrint(properties: Properties, p: Property, operator: string, right: string)
    requires operator in OPERATORS && forall c :: c in p.name ==> !IsOperatorChar(c)
    requires properties.Keys >= {p.name} && properties[p.name] == Some(p)
    ensures var rest := operator + right;
            var read := OperatorAt(rest);
            Parse(properties, p.name + operator + right) ==
              if Accepts(p, rest[|read|..]) then Ok(Some(Binary(p, read, rest[|read|..])))
              else Err("invalid value " + rest[|read|..])
  {
    OperatorReadBack(operator, right);
    var rest := operator + right;
    var text := p.name + operator + right;
    assert text == p.name + rest;
    IndexOperatorIs(p.name, rest);
    assert text[..|p.name|] == p.name && text[|p.name|..] == rest;
    NotBlank(text, |p.name|);
  }

  /** What each kind of factor is read as, by its text. */
  lemma FactorText(properties: Properties, name: string, operator: string, value: string)
    requires operator in ["=", "!=", "<", "<=", ">", ">="] && forall c :: c in name ==> c !in "<>=!"
    requires operator == "<" || operator == ">" ==> !("=" <= value)
    ensures var r := Parse(properties, name + operator + value);
      if !(name in properties && properties[name].Some?) then r == Ok(None)
      else
        var p := properties[name].value;
        if p.StringProperty? || Semver.IsValid(EnsurePrefix(value, "v")) then r == Ok(Some(Binary(p, operator, value)))
        else r.Err?
  {
    hide TrimSpace, OperatorAt, Semver.Parse;
    OperatorCharacters();
    PrefixLaws(value, "=");
    OperatorReadBack(operator, value);
    var rest := operator + value;
    var text := name + operator + value;
    assert text == name + rest && rest[|operator|..] == value;
    IndexOperatorIs(name, rest);
    assert text[..|name|] == name && text[|name|..] == rest;
    NotBlank(text, |name|);
  }

  /** A factor without an operator is an error unless it is blank; blank ones are skipped. */
  lemma FactorWithoutOperator(properties: Properties, text: string)
    requires forall c :: c in text ==> c !in "<>=!"
    ensures if TrimSpace(text) == "" then Parse(properties, text) == Ok(None) else Parse(properties, text).Err?
  {
    OperatorCharacters();
    forall k | 0 <= k < |text| ensures !IsOperatorChar(text[k]) { assert text[k] in text; }
  }

  lemma OperatorCharacters()
    ensures forall c :: IsOperatorChar(c) <==> c in "<>=!"
  {
    var s := "<>=!";
    assert s[0] == '<' && s[1] == '>' && s[2] == '=' && s[3] == '!';
  }

  /** Which printed comparisons are read back as themselves. */
  lemma ReparsesIff(properties: Properties, p: Property, operator: string, right: string)
    requires KeysAreNames(properties) && operator in OPERATORS
    requires p.name in properties && properties[p.name] == Some(p)
    ensures var c := Binary(p, operator, right);
            Parse(properties, Print(c)) == Ok(Some(c)) <==>
              && (forall ch :: ch in p.name ==> !IsOperatorChar(ch))
              && Accepts(p, right)
              && !((operator == "<" || operator == ">") && HasPrefix(right, "="))
  {
    var c := Binary(p, operator, right);
    if forall ch :: ch in p.name ==> !IsOperatorChar(ch) {
      ParseOfPrint(properties, p, operator, right);
      OperatorReadBack(operator, right);
      assert (operator + right)[|operator|..] == right;
    } else {
      var text := Print(c);
      var end := IndexOperator(text);
      var ch :| ch in p.name && IsOperatorChar(ch);
      var k :| 0 <= k < |p.name| && p.name[k] == ch;
      assert text[k] == ch;
      assert |text[..end]| < |p.name|;
    }
  }

  // ----- parsing requirements -----

  const OR_SEPARATOR := ' '
  const AND_SEPARATOR := ','

  /** How a factor is read; requirements are built in the same way from any reading of their factors. */
  type Reader = string -> Result<Option<Constraint>>

  function ReaderOf(properties: Properties): Reader { condition => Parse(properties, condition) }

  /** The comparisons of the supported factors, in order; the first failure ends it. */
  function Factors(read: Reader, parts: seq<string>): Result<seq<Constraint>> {
    if parts == [] then Ok([])
    else
      match Factors(read, parts[..|parts| - 1])
      case Err(message) => Err(message)
      case Ok(init) =>
        match read(parts[|parts| - 1])
        case Err(message) => Err(message)
        case Ok(None) => Ok(init)
        case Ok(Some(c)) => Ok(init + [c])
  }

  /** Nothing for a term without supported factors; a single factor stands for itself. */
  function Grouped(factors: seq<Constraint>): seq<Constraint> {
    if |factors| <= 1 then factors else [And(factors)]
  }

  function Terms(read: Reader, terms: seq<string>): Result<seq<Constraint>> {
    if terms == [] then Ok([])
    else
      match Terms(read, terms[..|terms| - 1])
      case Err(message) => Err(message)
      case Ok(init) =>
        match Factors(read, Split(terms[|terms| - 1], AND_SEPARATOR))
        case Err(message) => Err(message)
        case Ok(factors) => Ok(init + Grouped(factors))
  }

  function AllOf(constraints: seq<Constraint>): Constraint {
    if constraints == [] then Always else if |constraints| == 1 then constraints[0] else And(constraints)
  }

  function AnyOf(constraints: seq<Constraint>): Option<Constraint> {
    if constraints == [] then None else if |constraints| == 1 then Some(constraints[0]) else Some(Or(constraints))
  }

  function FromRequirement(read: Reader, requirement: string): Result<Option<Constraint>> {
    if TrimSpace(requirement) == "" then Ok(None)
    else
      match Terms(read, Split(requirement, OR_SEPARATOR))
      case Err(message) => Err(message)
      case Ok(terms) => Ok(AnyOf(terms))
  }

  function FromRequirements(read: Reader, requirements: seq<string>): Result<seq<Constraint>> {
    if requirements == [] then Ok([])
    else
      match FromRequirements(read, requirements[..|requirements| - 1])
      case Err(message) => Err(message)
      case Ok(init) =>
        match FromRequirement(read, requirements[|requirements| - 1])
        case Err(message) => Err(message)
        case Ok(None) => Ok(init)
        case Ok(Some(c)) => Ok(init + [c])
  }

  method ParseFactor(properties: Properties, condition: string) returns (r: Result<Option<Constraint>>)
    ensures r == Parse(properties, condition)
  {
    if TrimSpace(condition) == "" { return Ok(None); }
    var propertyEnd := IndexOperator(condition);
    if propertyEnd == |condition| { return Err("invalid constraint: " + condition); }
    var property, rest := condition[..propertyEnd], condition[propertyEnd..];
    if property !in properties || properties[property].None? { return Ok(None); }
    var op := "";
    for i := 0 to |OPERATORS|
      invariant op == "" && OperatorAt(rest) == FirstPrefix(OPERATORS[i..], rest)
    {
      if HasPrefix(rest, OPERATORS[i]) {
        op := OPERATORS[i];
        break;
      }
    }
    var value := TrimPrefix(rest, op);
    if !Accepts(properties[property].value, value) { return Err("invalid value " + value); }
    r := Ok(Some(Binary(properties[property].value, op, value)));
  }

  lemma {:induction false} FactorsFail(read: Reader, parts: seq<string>, i: nat)
    requires i <= |parts| && Factors(read, parts[..i]).Err?
    ensures Factors(read, parts) == Factors(read, parts[..i])
    decreases |parts|
  {
    if i == |parts| {
      assert parts[..i] == parts;
    } else {
      assert parts[..|parts| - 1][..i] == parts[..i];
      FactorsFail(read, parts[..|parts| - 1], i);
    }
  }

  lemma {:induction false} TermsFail(read: Reader, terms: seq<string>, i: nat)
    requires i <= |terms| && Terms(read, terms[..i]).Err?
    ensures Terms(read, terms) == Terms(read, terms[..i])
    decreases |terms|
  {
    if i == |terms| {
      assert terms[..i] == terms;
    } else {
      assert terms[..|terms| - 1][..i] == terms[..i];
      TermsFail(read, terms[..|terms| - 1], i);
    }
  }

  lemma {:induction false} RequirementsFail(read: Reader, requirements: seq<string>, i: nat)
    requires i <= |requirements| && FromRequirements(read, requirements[..i]).Err?
    ensures FromRequirements(read, requirements) == FromRequirements(read, requirements[..i])
    decreases |requirements|
  {
    if i == |requirements| {
      assert requirements[..i] == requirements;
    } else {
      assert requirements[..|requirements| - 1][..i] == requirements[..i];
      RequirementsFail(read, requirements[..|requirements| - 1], i);
    }
  }

  method ParseTerm(properties: Properties, term: string) returns (r: Result<seq<Constraint>>)
    ensures r == Factors(ReaderOf(properties), Split(term, AND_SEPARATOR))
  {
    hide Parse;
    ghost var read := ReaderOf(properties);
    var parts := Split(term, AND_SEPARATOR);
    var factors: seq<Constraint> := [];
    for i := 0 to |parts|
      invariant Factors(read, parts[..i]) == Ok(factors)
    {
      assert parts[..i + 1][..i] == parts[..i];
      var f := ParseFactor(properties, parts[i]);
      if f.Err? {
        FactorsFail(read, parts, i + 1);
        return Err(f.message);
      }
      if f.value.None? { continue; }
      factors := factors + [f.value.value];
    }
    assert parts[..|parts|] == parts;
    r := Ok(factors);
  }

  lemma {:induction false} TermsNext(read: Reader, terms: seq<string>, i: nat)
    requires i < |terms| && Terms(read, terms[..i]).Ok?
    ensures var factors := Factors(read, Split(terms[i], AND_SEPARATOR));
      && (factors.Ok? ==> Terms(read, terms[..i + 1]) == Ok(Terms(read, terms[..i]).value + Grouped(factors.value)))
      && (factors.Err? ==> Terms(read, terms) == Err(factors.message))
  {
    assert terms[..i + 1][..i] == terms[..i];
    if Factors(read, Split(terms[i], AND_SEPARATOR)).Err? { TermsFail(read, terms, i + 1); }
  }

  method NewConstraintFromRequirement(properties: Properties, requirement: string)
      returns (r: Result<Option<Constraint>>)
    ensures r == FromRequirement(ReaderOf(properties), requirement)
  {
    hide Parse, TrimSpace, Split;
    if TrimSpace(requirement) == "" { return Ok(None); }
    var all := Split(requirement, OR_SEPARATOR);
    var terms: seq<Constraint> := [];
    for i := 0 to |all|
      invariant Terms(ReaderOf(properties), all[..i]) == Ok(terms)
    {
      TermsNext(ReaderOf(properties), all, i);
      var factors := ParseTerm(properties, all[i]);
      if factors.Err? { return Err(factors.message); }
      if factors.value == [] {
        assert terms + [] == terms;
        continue;
      }
      if |factors.value| == 1 {
        assert [factors.value[0]] == factors.value;
        terms := terms + [factors.value[0]];
      } else {
        terms := terms + [And(factors.value)];
      }
    }
    assert all[..|all|] == all;
    r := Ok(AnyOf(terms));
  }

  lemma {:induction false} RequirementsNext(read: Reader, requirements: seq<string>, i: nat)
    requires i < |requirements| && FromRequirements(read, requirements[..i]).Ok?
    ensures var init := FromRequirements(read, requirements[..i]).value;
      match FromRequirement(read, requirements[i])
      case Err(message) => FromRequirements(read, requirements) == Err(message)
      case Ok(None) => FromRequirements(read, requirements[..i + 1]) == Ok(init)
      case Ok(Some(c)) => FromRequirements(read, requirements[..i + 1]) == Ok(init + [c])
  {
    assert requirements[..i + 1][..i] == requirements[..i];
    if FromRequirement(read, requirements[i]).Err? { RequirementsFail(read, requirements, i + 1); }
  }

  method BuildAll(requirements: seq<string>, properties: Properties) returns (r: Result<seq<Constraint>>)
    ensures r == FromRequirements(ReaderOf(properties), requirements)
  {
    var constraints: seq<Constraint> := [];
    for i := 0 to |requirements|
      invariant FromRequirements(ReaderOf(properties), requirements[..i]) == Ok(constraints)
    {
      RequirementsNext(ReaderOf(properties), requirements, i);
      var c := NewConstraintFromRequirement(properties, requirements[i]);
      if c.Err? { return Err(c.message); }
      if c.value.None? { continue; }
      constraints := constraints + [c.value.value];
    }
    assert requirements[..|requirements|] == requirements;
    r := Ok(constraints);
  }

  /** The constraint is met exactly when every requirement is; it fails to build exactly when a factor cannot be read. */
  method New(requirements: seq<string>, properties: Properties) returns (r: Result<Constraint>)
    ensures r.Err? <==> SomeUnreadable(ReaderOf(properties), requirements)
    ensures r.Ok? ==> (Satisfied(r.value) <==> AllMet(ReaderOf(properties), requirements))
  {
    RequirementsMean(ReaderOf(properties), requirements);
    if requirements == [] { return Ok(Always); }
    var constraints := BuildAll(requirements, properties);
    if constraints.Err? { return Err(constraints.message); }
    AllOfMeans(constraints.value);
    r := Ok(AllOf(constraints.value));
  }

  // ----- what requirements mean -----

  /** A factor that stands for a comparison. */
  predicate Usable(read: Reader, factor: string) { read(factor).Ok? && read(factor).value.Some? }

  predicate Holds(read: Reader, factor: string) { Usable(read, factor) && Satisfied(read(factor).value.value) }

  ghost predicate AnyUsable(read: Reader, parts: seq<string>) { exists f :: f in parts && Usable(read, f) }

  ghost predicate UsableHold(read: Reader, parts: seq<string>) {
    forall f :: f in parts && Usable(read, f) ==> Holds(read, f)
  }

  /** The term has a supported factor, and all its supported factors hold. */
  ghost predicate TermMet(read: Reader, term: string) {
    AnyUsable(read, Split(term, AND_SEPARATOR)) && UsableHold(read, Split(term, AND_SEPARATOR))
  }

  ghost predicate NoneUsable(read: Reader, terms: seq<string>) {
    forall t :: t in terms ==> !AnyUsable(read, Split(t, AND_SEPARATOR))
  }

  /** Nothing in the requirement is supported, or some term is met. */
  ghost predicate Met(read: Reader, requirement: string) {
    || TrimSpace(requirement) == ""
    || NoneUsable(read, Split(requirement, OR_SEPARATOR))
    || exists t :: t in Split(requirement, OR_SEPARATOR) && TermMet(read, t)
  }

  ghost predicate TermUnreadable(read: Reader, term: string) {
    exists f :: f in Split(term, AND_SEPARATOR) && read(f).Err?
  }

  /** Some factor of a requirement that is not blank cannot be read. */
  ghost predicate Unreadable(read: Reader, requirement: string) {
    TrimSpace(requirement) != "" && exists t :: t in Split(requirement, OR_SEPARATOR) && TermUnreadable(read, t)
  }

  ghost predicate AllSatisfied(cs: seq<Constraint>) { forall c :: c in cs ==> Satisfied(c) }

  ghost predicate AnySatisfied(cs: seq<Constraint>) { exists c :: c in cs && Satisfied(c) }

  lemma {:induction false} SatisfiedSnoc(cs: seq<Constraint>, c: Constraint)
    ensures AllSatisfied(cs + [c]) <==> AllSatisfied(cs) && Satisfied(c)
    ensures AnySatisfied(cs + [c]) <==> AnySatisfied(cs) || Satisfied(c)
  {
    assert c in cs + [c];
    if d :| d in cs && !Satisfied(d) { assert d in cs + [c]; }
    if d :| d in cs && Satisfied(d) { assert d in cs + [c]; }
  }

  lemma AnyOfMeans(constraints: seq<Constraint>)
    requires constraints != []
    ensures Satisfied(AnyOf(constraints).value) <==> AnySatisfied(constraints)
  {
    assert constraints[0] in constraints;
  }

  lemma AllOfMeans(constraints: seq<Constraint>)
    ensures Satisfied(AllOf(constraints)) <==> AllSatisfied(constraints)
  {
    if |constraints| == 1 { assert constraints[0] in constraints; }
  }

  lemma UsableSnoc(read: Reader, init: seq<string>, last: string)
    ensures AnyUsable(read, init + [last]) <==> AnyUsable(read, init) || Usable(read, last)
    ensures UsableHold(read, init + [last]) <==> UsableHold(read, init) && (Usable(read, last) ==> Holds(read, last))
  {
    assert last in init + [last];
    if f :| f in init && Usable(read, f) { assert f in init + [last]; }
    if f :| f in init && Usable(read, f) && !Holds(read, f) { assert f in init + [last]; }
  }

  lemma {:induction false} FactorsMean(read: Reader, parts: seq<string>)
    ensures Factors(read, parts).Err? <==> exists f :: f in parts && read(f).Err?
    ensures Factors(read, parts).Ok? ==> (Factors(read, parts).value != [] <==> AnyUsable(read, parts))
    ensures Factors(read, parts).Ok? ==> (AllSatisfied(Factors(read, parts).value) <==> UsableHold(read, parts))
  {
    if parts != [] {
      var init, last := parts[..|parts| - 1], parts[|parts| - 1];
      assert parts == init + [last];
      FactorsMean(read, init);
      UsableSnoc(read, init, last);
      if Factors(read, init).Err? {
        var f :| f in init && read(f).Err?;
        assert f in parts;
      } else {
        assert last in parts;
        if read(last).Ok? && read(last).value.Some? { SatisfiedSnoc(Factors(read, init).value, read(last).value.value); }
      }
    }
  }

  lemma {:induction false} TermMeans(read: Reader, term: string)
    ensures var factors := Factors(read, Split(term, AND_SEPARATOR));
      && (factors.Err? <==> TermUnreadable(read, term))
      && (factors.Ok? ==>
          && (Grouped(factors.value) != [] <==> AnyUsable(read, Split(term, AND_SEPARATOR)))
          && (AnySatisfied(Grouped(factors.value)) <==> TermMet(read, term)))
  {
    var factors := Factors(read, Split(term, AND_SEPARATOR));
    FactorsMean(read, Split(term, AND_SEPARATOR));
    if factors.Ok? { GroupedMeans(factors.value); }
  }

  lemma GroupedMeans(factors: seq<Constraint>)
    ensures AnySatisfied(Grouped(factors)) <==> factors != [] && AllSatisfied(factors)
  {
    if |factors| == 1 {
      assert factors[0] in factors;
    } else if |factors| > 1 {
      assert And(factors) in Grouped(factors);
    }
  }

  lemma AnySatisfiedAppend(a: seq<Constraint>, b: seq<Constraint>)
    ensures AnySatisfied(a + b) <==> AnySatisfied(a) || AnySatisfied(b)
  {
    if c :| c in a && Satisfied(c) { assert c in a + b; }
    if c :| c in b && Satisfied(c) { assert c in a + b; }
  }

  ghost predicate SomeTermMet(read: Reader, terms: seq<string>) { exists t :: t in terms && TermMet(read, t) }

  ghost predicate SomeTermUnreadable(read: Reader, terms: seq<string>) {
    exists t :: t in terms && TermUnreadable(read, t)
  }

  lemma {:induction false} TermsSnoc(read: Reader, init: seq<string>, last: string)
    ensures SomeTermMet(read, init + [last]) <==> SomeTermMet(read, init) || TermMet(read, last)
    ensures SomeTermUnreadable(read, init + [last]) <==> SomeTermUnreadable(read, init) || TermUnreadable(read, last)
    ensures NoneUsable(read, init + [last]) <==> NoneUsable(read, init) && !AnyUsable(read, Split(last, AND_SEPARATOR))
  {
    var all := init + [last];
    assert last in all;
    if t :| t in init && TermMet(read, t) { assert t in all; }
    if t :| t in init && TermUnreadable(read, t) { assert t in all; }
    if t :| t in init && AnyUsable(read, Split(t, AND_SEPARATOR)) { assert t in all; }
  }

  lemma {:induction false} TermsMean(read: Reader, terms: seq<string>)
    ensures Terms(read, terms).Err? <==> SomeTermUnreadable(read, terms)
    ensures Terms(read, terms).Ok? ==> (Terms(read, terms).value == [] <==> NoneUsable(read, terms))
    ensures Terms(read, terms).Ok? ==> (AnySatisfied(Terms(read, terms).value) <==> SomeTermMet(read, terms))
  {
    if terms != [] {
      var init, last := terms[..|terms| - 1], terms[|terms| - 1];
      assert terms == init + [last];
      TermsMean(read, init);
      TermMeans(read, last);
      TermsSnoc(read, init, last);
      var factors := Factors(read, Split(last, AND_SEPARATOR));
      if Terms(read, init).Ok? && factors.Ok? { AnySatisfiedAppend(Terms(read, init).value, Grouped(factors.value)); }
    }
  }

  lemma RequirementMeans(read: Reader, requirement: string)
    ensures var r := FromRequirement(read, requirement);
      && (r.Err? <==> Unreadable(read, requirement))
      && (r.Ok? ==> (Met(read, requirement) <==> r.value.None? || Satisfied(r.value.value)))
  {
    var terms := Split(requirement, OR_SEPARATOR);
    TermsMean(read, terms);
    if Terms(read, terms).Ok? && Terms(read, terms).value != [] { AnyOfMeans(Terms(read, terms).value); }
  }

  ghost predicate AllMet(read: Reader, requirements: seq<string>) { forall q :: q in requirements ==> Met(read, q) }

  ghost predicate SomeUnreadable(read: Reader, requirements: seq<string>) {
    exists q :: q in requirements && Unreadable(read, q)
  }

  lemma RequirementsSnoc(read: Reader, init: seq<string>, last: string)
    ensures AllMet(read, init + [last]) <==> AllMet(read, init) && Met(read, last)
    ensures SomeUnreadable(read, init + [last]) <==> SomeUnreadable(read, init) || Unreadable(read, last)
  {
    var all := init + [last];
    assert last in all;
    if q :| q in init && !Met(read, q) { assert q in all; }
    if q :| q in init && Unreadable(read, q) { assert q in all; }
  }

  lemma {:induction false} RequirementsMean(read: Reader, requirements: seq<string>)
    ensures FromRequirements(read, requirements).Err? <==> SomeUnreadable(read, requirements)
    ensures FromRequirements(read, requirements).Ok? ==>
      (AllSatisfied(FromRequirements(read, requirements).value) <==> AllMet(read, requirements))
  {
    if requirements != [] {
      var init, last := requirements[..|requirements| - 1], requirements[|requirements| - 1];
      assert requirements == init + [last];
      RequirementsMean(read, init);
      RequirementMeans(read, last);
      RequirementsSnoc(read, init, last);
      var built, c := FromRequirements(read, init), FromRequirement(read, last);
      if built.Ok? && c.Ok? && c.value.Some? { SatisfiedSnoc(built.value, c.value.value); }
    }
  }

  // ----- the text of a requirement -----

  function TermText(factors: seq<string>): string { Join(factors, ",") }

  /** Terms separated by spaces, the factors of each by commas. */
  function RequirementText(terms: seq<seq<string>>): string { Join(Map(TermText, terms), " ") }

  ghost predicate PlainFactors(factors: seq<string>) {
    factors != [] && forall f :: f in factors ==> ' ' !in f && ',' !in f
  }

  lemma {:induction false} SpaceFree(factors: seq<string>)
    requires PlainFactors(factors)
    ensures ' ' !in TermText(factors)
  {
    assert factors[0] in factors;
    if |factors| > 1 { SpaceFree(factors[1..]); }
  }

  lemma {:induction false} TextSplits(terms: seq<seq<string>>)
    requires terms != [] && forall t :: t in terms ==> PlainFactors(t)
    ensures Split(RequirementText(terms), ' ') == Map(TermText, terms)
    ensures forall t :: t in terms ==> Split(TermText(t), ',') == t
  {
    hide TermText, PlainFactors;
    var texts := Map(TermText, terms);
    forall t | t in texts ensures ' ' !in t {
      var i :| 0 <= i < |texts| && texts[i] == t;
      assert terms[i] in terms;
      SpaceFree(terms[i]);
    }
    SplitOfJoin(texts, ' ');
    forall t | t in terms ensures Split(TermText(t), ',') == t { TermSplits(t); }
  }

  lemma TermSplits(factors: seq<string>)
    requires PlainFactors(factors)
    ensures Split(TermText(factors), ',') == factors
  {
    SplitOfJoin(factors, ',');
  }

  lemma {:induction false} InTexts(terms: seq<seq<string>>, text: string)
    ensures text in Map(TermText, terms) <==> exists t :: t in terms && text == TermText(t)
  {
    hide TermText;
    var texts := Map(TermText, terms);
    if text in texts {
      var i :| 0 <= i < |texts| && texts[i] == text;
      assert terms[i] in terms;
    }
    if t :| t in terms && text == TermText(t) {
      var i :| 0 <= i < |terms| && terms[i] == t;
      assert texts[i] == text;
    }
  }

  /** What a requirement put together from its factors means. */
  lemma {:induction false} TextMeans(read: Reader, terms: seq<seq<string>>)
    requires terms != [] && forall t :: t in terms ==> PlainFactors(t)
    ensures var text := RequirementText(terms);
      && (Met(read, text) <==>
          || TrimSpace(text) == ""
          || (forall t :: t in terms ==> !AnyUsable(read, t))
          || exists t :: t in terms && AnyUsable(read, t) && UsableHold(read, t))
      && (Unreadable(read, text) <==> TrimSpace(text) != "" && exists t, f :: t in terms && f in t && read(f).Err?)
  {
    hide TermText, RequirementText, TrimSpace, PlainFactors, AnyUsable, UsableHold;
    var text, texts := RequirementText(terms), Map(TermText, terms);
    TextSplits(terms);
    forall s ensures s in texts <==> exists t :: t in terms && s == TermText(t) { InTexts(terms, s); }
    forall t | t in terms ensures TermMet(read, TermText(t)) <==> AnyUsable(read, t) && UsableHold(read, t) {}
    forall t | t in terms ensures TermUnreadable(read, TermText(t)) <==> exists f :: f in t && read(f).Err? {}
    if forall t :: t in terms ==> !AnyUsable(read, t) { assert NoneUsable(read, texts); }
    if NoneUsable(read, texts) {
      forall t | t in terms ensures !AnyUsable(read, t) { assert TermText(t) in texts; }
    }
    if t :| t in terms && AnyUsable(read, t) && UsableHold(read, t) { assert TermText(t) in texts; }
    if t, f :| t in terms && f in t && read(f).Err? { assert TermText(t) in texts && TermUnreadable(read, TermText(t)); }
  }
}
