/**
 * The JSON text encoding/json produces for the flat structs whose text serves
 * as an entity id, and the proof that the text determines the struct.
 */
module JsonText {
  import opened Wrappers
  import opened Numbers
  import opened Sequences
  import opened Strings

  datatype Json = Text(s: string) | Number(n: int) | Texts(items: seq<string>)

  /** A struct: one slot a field, None where `omitempty` drops the field. */
  type Slot = (string, Option<Json>)
  type Slots = seq<Slot>
  type Fields = seq<(string, Json)>

  // ----- rendering -----

  function Hex(d: nat): char
    requires d < 16
  {
    (if d < 10 then '0' as int + d else 'a' as int + d - 10) as char
  }

  function ShortEscape(c: char): Option<char> {
    if c == '"' || c == '\\' then Some(c)
    else if c == 8 as char then Some('b') else if c == 12 as char then Some('f')
    else if c == '\n' then Some('n') else if c == '\r' then Some('r') else if c == '\t' then Some('t')
    else None
  }

  predicate NeedsUnicodeEscape(c: char) {
    c < ' ' || c == '<' || c == '>' || c == '&' || c == 0x2028 as char || c == 0x2029 as char
  }

  function UnicodeEscape(n: nat): string
    requires n < 0x10000
  {
    ['\\', 'u', Hex(n / 4096), Hex(n / 256 % 16), Hex(n / 16 % 16), Hex(n % 16)]
  }

  function EscapeChar(c: char): (r: string)
    ensures r != "" && r[0] != '"'
  {
    if ShortEscape(c).Some? then ['\\', ShortEscape(c).value]
    else if NeedsUnicodeEscape(c) then UnicodeEscape(c as int)
    else [c]
  }

  function Escape(s: string): string {
    if s == "" then "" else EscapeChar(s[0]) + Escape(s[1..])
  }

  function Quote(s: string): string { ['"'] + Escape(s) + ['"'] }

  function Digits(n: nat): string {
    if n < 10 then [Hex(n)] else Digits(n / 10) + [Hex(n % 10)]
  }

  function Decimal(n: int): string { if n < 0 then ['-'] + Digits(-n) else Digits(n) }

  function RenderItems(items: seq<string>): string {
    if items == [] then [']'] else [','] + Quote(items[0]) + RenderItems(items[1..])
  }

  function RenderArray(items: seq<string>): string {
    ['['] + if items == [] then [']'] else Quote(items[0]) + RenderItems(items[1..])
  }

  function Render(v: Json): string {
    match v
    case Text(s) => Quote(s)
    case Number(n) => Decimal(n)
    case Texts(items) => RenderArray(items)
  }

  function RenderField(fields: Fields): string
    requires fields != []
    decreases |fields|, 0
  {
    Quote(fields[0].0) + ([':'] + (Render(fields[0].1) + RenderFields(fields[1..])))
  }

  function RenderFields(fields: Fields): (r: string)
    ensures r != "" && r[0] in ",}"
    decreases |fields|, 1
  {
    if fields == [] then ['}']
    else [','] + RenderField(fields)
  }

  function Present(slots: Slots): Fields {
    if slots == [] then []
    else if slots[0].1.Some? then [(slots[0].0, slots[0].1.value)] + Present(slots[1..])
    else Present(slots[1..])
  }

  /** json.Marshal of a struct. */
  function Marshal(slots: Slots): string {
    ['{'] + if Present(slots) == [] then ['}'] else RenderField(Present(slots))
  }

  // ----- unique readability -----

  lemma Cut(a: string, b: string, x: string, y: string)
    requires a + x == b + y && |a| == |b|
    ensures a == b && x == y
  {
    assert a == (a + x)[..|a|] && b == (b + y)[..|b|];
    assert x == (a + x)[|a|..] && y == (b + y)[|b|..];
  }

  lemma FromHexDigits(n: nat)
    requires n < 0x10000
    ensures n == n / 4096 * 4096 + n / 256 % 16 * 256 + n / 16 % 16 * 16 + n % 16
  {
    assert n / 4096 == n / 256 / 16;
    assert n / 256 == n / 16 / 16;
  }

  lemma HexInjective(d: nat, e: nat)
    requires d < 16 && e < 16 && Hex(d) == Hex(e)
    ensures d == e
  {
  }

  lemma UnicodeEscapeInjective(n: nat, m: nat)
    requires n < 0x10000 && m < 0x10000 && UnicodeEscape(n) == UnicodeEscape(m)
    ensures n == m
  {
    hide Hex;
    var u, v := UnicodeEscape(n), UnicodeEscape(m);
    assert u[2] == v[2] && u[3] == v[3] && u[4] == v[4] && u[5] == v[5];
    HexInjective(n / 4096, m / 4096);
    HexInjective(n / 256 % 16, m / 256 % 16);
    HexInjective(n / 16 % 16, m / 16 % 16);
    HexInjective(n % 16, m % 16);
    FromHexDigits(n);
    FromHexDigits(m);
  }

  lemma EscapeCharHead(c: char, x: string)
    ensures var w := EscapeChar(c) + x;
            && (ShortEscape(c).Some? ==> |w| >= 2 && w[0] == '\\' && w[1] == ShortEscape(c).value)
            && (ShortEscape(c).None? && NeedsUnicodeEscape(c) ==> |w| >= 2 && w[0] == '\\' && w[1] == 'u')
            && (ShortEscape(c).None? && !NeedsUnicodeEscape(c) ==> w[0] == c != '\\')
  {
  }

  lemma Assoc(a: string, b: string, c: string)
    ensures (a + b) + c == a + (b + c)
  {
  }

  lemma EscapeCharReadable(a: char, b: char, x: string, y: string)
    requires EscapeChar(a) + x == EscapeChar(b) + y
    ensures a == b && x == y
  {
    EscapeCharHead(a, x);
    EscapeCharHead(b, y);
    assert |EscapeChar(a)| == |EscapeChar(b)|;
    Cut(EscapeChar(a), EscapeChar(b), x, y);
    if ShortEscape(a).None? && NeedsUnicodeEscape(a) {
      UnicodeEscapeInjective(a as int, b as int);
    }
  }

  lemma {:induction false} EscapeStart(s: string, x: string)
    ensures s == "" <==> (Escape(s) + (['"'] + x))[0] == '"'
  {
    assert s != "" ==> Escape(s)[0] == EscapeChar(s[0])[0];
  }

  lemma {:induction false} EscapeReadable(s: string, t: string, x: string, y: string)
    requires Escape(s) + (['"'] + x) == Escape(t) + (['"'] + y)
    ensures s == t && x == y
  {
    EscapeStart(s, x);
    EscapeStart(t, y);
    if s == "" && t == "" {
      Cut(Escape(s), Escape(t), ['"'] + x, ['"'] + y);
      Cut(['"'], ['"'], x, y);
    } else {
      var x', y' := Escape(s[1..]) + (['"'] + x), Escape(t[1..]) + (['"'] + y);
      Assoc(EscapeChar(s[0]), Escape(s[1..]), ['"'] + x);
      Assoc(EscapeChar(t[0]), Escape(t[1..]), ['"'] + y);
      EscapeCharReadable(s[0], t[0], x', y');
      EscapeReadable(s[1..], t[1..], x, y);
      assert s == [s[0]] + s[1..] && t == [t[0]] + t[1..];
    }
  }

  lemma {:induction false} QuoteUnfold(s: string, x: string)
    ensures Quote(s) + x == ['"'] + (Escape(s) + (['"'] + x))
  {
    Assoc(['"'], Escape(s), ['"']);
    Assoc(['"'], Escape(s) + ['"'], x);
    Assoc(Escape(s), ['"'], x);
  }

  lemma QuoteReadable(s: string, t: string, x: string, y: string)
    requires Quote(s) + x == Quote(t) + y
    ensures s == t && x == y
  {
    QuoteUnfold(s, x);
    QuoteUnfold(t, y);
    Cut(['"'], ['"'], Escape(s) + (['"'] + x), Escape(t) + (['"'] + y));
    EscapeReadable(s, t, x, y);
  }

  lemma {:induction false} DigitsAreDigits(n: nat)
    ensures Digits(n) != "" && forall i :: 0 <= i < |Digits(n)| ==> IsDigit(Digits(n)[i])
  {
    if n >= 10 { DigitsAreDigits(n / 10); }
  }

  /** The digits written stand for the number. */
  lemma {:induction false} DigitsOf(n: nat)
    ensures AllDigits(Digits(n)) && NumberOf(Digits(n)) == n
  {
    if n >= 10 {
      DigitsOf(n / 10);
      assert Digits(n)[..|Digits(n)| - 1] == Digits(n / 10);
    }
  }

  lemma {:induction false} DigitsInjective(n: nat, m: nat)
    requires Digits(n) == Digits(m)
    ensures n == m
  {
    hide Hex;
    DigitsAreDigits(n / 10);
    DigitsAreDigits(m / 10);
    var d := Digits(n);
    assert n >= 10 ==> |d| >= 2;
    assert m >= 10 ==> |d| >= 2;
    if n < 10 {
      assert d[0] == Hex(n) == Hex(m);
      HexInjective(n, m);
    } else {
      assert Digits(n / 10) == d[..|d| - 1] == Digits(m / 10);
      DigitsInjective(n / 10, m / 10);
      assert d[|d| - 1] == Hex(n % 10) == Hex(m % 10);
      HexInjective(n % 10, m % 10);
    }
  }

  lemma {:induction false} DigitsReadable(n: nat, m: nat, x: string, y: string)
    requires x != "" && y != "" && !IsDigit(x[0]) && !IsDigit(y[0])
    requires Digits(n) + x == Digits(m) + y
    ensures n == m && x == y
  {
    DigitsAreDigits(n);
    DigitsAreDigits(m);
    var a, b := Digits(n), Digits(m);
    var w := a + x;
    assert w[|a|] == x[0] && w[|b|] == y[0];
    assert forall i :: 0 <= i < |a| ==> w[i] == a[i];
    assert forall i :: 0 <= i < |b| ==> w[i] == b[i];
    assert |a| == |b|;
    Cut(a, b, x, y);
    DigitsInjective(n, m);
  }

  lemma DecimalReadable(n: int, m: int, x: string, y: string)
    requires x != "" && y != "" && !IsDigit(x[0]) && !IsDigit(y[0])
    requires Decimal(n) + x == Decimal(m) + y
    ensures n == m && x == y
  {
    hide Digits;
    DigitsAreDigits(if n < 0 then -n else n);
    DigitsAreDigits(if m < 0 then -m else m);
    assert (Decimal(n) + x)[0] == Decimal(n)[0] && (Decimal(m) + y)[0] == Decimal(m)[0];
    if n < 0 && m < 0 {
      Assoc(['-'], Digits(-n), x);
      Assoc(['-'], Digits(-m), y);
      Cut(['-'], ['-'], Digits(-n) + x, Digits(-m) + y);
      DigitsReadable(-n, -m, x, y);
    } else if n >= 0 && m >= 0 {
      DigitsReadable(n, m, x, y);
    }
  }

  lemma {:induction false} ItemsUnfold(s: seq<string>, x: string)
    requires s != []
    ensures RenderItems(s) + x == [','] + (Quote(s[0]) + (RenderItems(s[1..]) + x))
  {
    Assoc([','], Quote(s[0]), RenderItems(s[1..]));
    Assoc([','], Quote(s[0]) + RenderItems(s[1..]), x);
    Assoc(Quote(s[0]), RenderItems(s[1..]), x);
  }

  lemma {:induction false} ItemsReadable(s: seq<string>, t: seq<string>, x: string, y: string)
    requires RenderItems(s) + x == RenderItems(t) + y
    ensures s == t && x == y
  {
    assert (RenderItems(s) + x)[0] == (RenderItems(t) + y)[0];
    if s == [] {
      Cut(RenderItems(s), RenderItems(t), x, y);
    } else {
      var x', y' := RenderItems(s[1..]) + x, RenderItems(t[1..]) + y;
      ItemsUnfold(s, x);
      ItemsUnfold(t, y);
      Cut([','], [','], Quote(s[0]) + x', Quote(t[0]) + y');
      QuoteReadable(s[0], t[0], x', y');
      ItemsReadable(s[1..], t[1..], x, y);
      assert s == [s[0]] + s[1..] && t == [t[0]] + t[1..];
    }
  }

  lemma ArrayUnfold(s: seq<string>, x: string)
    ensures s == [] ==> RenderArray(s) + x == ['['] + ([']'] + x)
    ensures s != [] ==> RenderArray(s) + x == ['['] + (Quote(s[0]) + (RenderItems(s[1..]) + x))
  {
    if s == [] {
      Assoc(['['], [']'], x);
    } else {
      Assoc(['['], Quote(s[0]) + RenderItems(s[1..]), x);
      Assoc(Quote(s[0]), RenderItems(s[1..]), x);
    }
  }

  lemma ArrayReadable(s: seq<string>, t: seq<string>, x: string, y: string)
    requires RenderArray(s) + x == RenderArray(t) + y
    ensures s == t && x == y
  {
    ArrayUnfold(s, x);
    ArrayUnfold(t, y);
    var u, v := RenderArray(s) + x, RenderArray(t) + y;
    assert s != [] ==> u[1] == Quote(s[0])[0] == '"';
    assert t != [] ==> v[1] == Quote(t[0])[0] == '"';
    if s == [] {
      Cut(RenderArray(s), RenderArray(t), x, y);
    } else {
      var x', y' := RenderItems(s[1..]) + x, RenderItems(t[1..]) + y;
      Cut(['['], ['['], Quote(s[0]) + x', Quote(t[0]) + y');
      QuoteReadable(s[0], t[0], x', y');
      ItemsReadable(s[1..], t[1..], x, y);
      assert s == [s[0]] + s[1..] && t == [t[0]] + t[1..];
    }
  }

  function Opening(v: Json): char {
    match v
    case Text(_) => '"'
    case Texts(_) => '['
    case Number(n) => if n < 0 then '-' else Digits(n)[0]
  }

  lemma OpeningIs(v: Json, x: string)
    ensures Render(v) != "" && (Render(v) + x)[0] == Opening(v)
    ensures v.Number? ==> IsDigit(Opening(v)) || Opening(v) == '-'
  {
    if v.Number? && v.n >= 0 { DigitsAreDigits(v.n); }
  }

  lemma ValueReadable(v: Json, w: Json, x: string, y: string)
    requires x != "" && y != "" && x[0] in ",}" && y[0] in ",}"
    requires Render(v) + x == Render(w) + y
    ensures v == w && x == y
  {
    OpeningIs(v, x);
    OpeningIs(w, y);
    match v
    case Text(s) => QuoteReadable(s, w.s, x, y);
    case Number(n) => DecimalReadable(n, w.n, x, y);
    case Texts(items) => ArrayReadable(items, w.items, x, y);
  }

  lemma {:induction false} FieldReadable(f: Fields, g: Fields)
    requires f != [] && g != [] && RenderField(f) == RenderField(g)
    ensures f == g
    decreases |f|
  {
    var x, y := Render(f[0].1) + RenderFields(f[1..]), Render(g[0].1) + RenderFields(g[1..]);
    QuoteReadable(f[0].0, g[0].0, [':'] + x, [':'] + y);
    Cut([':'], [':'], x, y);
    ValueReadable(f[0].1, g[0].1, RenderFields(f[1..]), RenderFields(g[1..]));
    assert RenderFields(f[1..])[0] == RenderFields(g[1..])[0];
    assert (f[1..] == []) == (g[1..] == []);
    if f[1..] != [] {
      Cut([','], [','], RenderField(f[1..]), RenderField(g[1..]));
      FieldReadable(f[1..], g[1..]);
    }
    assert f == [f[0]] + f[1..] && g == [g[0]] + g[1..];
  }

  lemma {:induction false} MarshalReadable(s: Slots, t: Slots)
    requires Marshal(s) == Marshal(t)
    ensures Present(s) == Present(t)
  {
    var f, g := Present(s), Present(t);
    Cut(['{'], ['{'], Marshal(s)[1..], Marshal(t)[1..]);
    assert f == [] ==> Marshal(s)[1] == '}';
    assert g == [] ==> Marshal(t)[1] == '}';
    assert f != [] ==> Marshal(s)[1..] == RenderField(f) && RenderField(f)[0] == '"';
    assert g != [] ==> Marshal(t)[1..] == RenderField(g) && RenderField(g)[0] == '"';
    if f != [] && g != [] { FieldReadable(f, g); }
  }

  ghost predicate SameKeys(s: Slots, t: Slots) {
    && |s| == |t|
    && (forall i :: 0 <= i < |s| ==> s[i].0 == t[i].0)
    && (forall i, j :: 0 <= i < j < |s| ==> s[i].0 != s[j].0)
  }

  lemma {:induction false} PresentKey(s: Slots)
    requires Present(s) != []
    ensures exists i :: 0 <= i < |s| && s[i].0 == Present(s)[0].0
  {
    if s[0].1.None? {
      PresentKey(s[1..]);
      var i :| 0 <= i < |s[1..]| && s[1..][i].0 == Present(s)[0].0;
      assert s[i + 1].0 == Present(s)[0].0;
    }
  }

  lemma {:induction false} PresentInjective(s: Slots, t: Slots)
    requires SameKeys(s, t) && Present(s) == Present(t)
    ensures s == t
  {
    if s != [] {
      var s', t' := s[1..], t[1..];
      if s[0].1 != t[0].1 && s[0].1.None? { PresentKey(s'); }
      if s[0].1 != t[0].1 && t[0].1.None? { PresentKey(t'); }
      assert s[0].1.Some? ==> Present(s)[1..] == Present(s') && Present(t)[1..] == Present(t');
      PresentInjective(s', t');
      assert s == [s[0]] + s' && t == [t[0]] + t';
    }
  }

  /** Equal texts of structs of one type come from equal structs. */
  lemma MarshalInjective(s: Slots, t: Slots)
    requires SameKeys(s, t) && Marshal(s) == Marshal(t)
    ensures s == t
  {
    MarshalReadable(s, t);
    PresentInjective(s, t);
  }

  // ----- the text by its characters -----

  /** A character that JSON text holds as it is. */
  ghost predicate PlainChar(c: char) {
    && c >= ' ' && c != '"' && c != '\\' && c != '<' && c != '>' && c != '&'
    && c != 0x2028 as char && c != 0x2029 as char
  }

  ghost predicate PlainText(s: string) { forall c :: c in s ==> PlainChar(c) }

  lemma {:induction false} QuoteOfPlain(s: string)
    requires PlainText(s)
    ensures Quote(s) == "\"" + s + "\""
  {
    EscapeOfPlain(s);
  }

  lemma PlainCharStays(c: char)
    requires PlainChar(c)
    ensures EscapeChar(c) == [c]
  {
  }

  lemma {:induction false} EscapeOfPlain(s: string)
    requires PlainText(s)
    ensures Escape(s) == s
  {
    hide PlainChar, EscapeChar;
    if s != "" {
      assert s[0] in s && s == [s[0]] + s[1..];
      assert forall c :: c in s[1..] ==> c in s;
      PlainCharStays(s[0]);
      EscapeOfPlain(s[1..]);
    }
  }

  lemma {:induction false} EscapeAppend(s: string, t: string)
    ensures Escape(s + t) == Escape(s) + Escape(t)
  {
    if s == "" {
      assert s + t == t;
    } else {
      assert (s + t)[1..] == s[1..] + t;
      EscapeAppend(s[1..], t);
    }
  }

  /** All other characters are escaped. */
  lemma ShortEscapes()
    ensures EscapeChar('"') == "\\\"" && EscapeChar('\\') == "\\\\"
    ensures EscapeChar('\n') == "\\n" && EscapeChar('\r') == "\\r" && EscapeChar('\t') == "\\t"
    ensures EscapeChar(8 as char) == "\\b" && EscapeChar(12 as char) == "\\f"
  {
  }

  lemma HtmlEscapes()
    ensures EscapeChar('<') == "\\u003c" && EscapeChar('>') == "\\u003e" && EscapeChar('&') == "\\u0026"
  {
  }

  lemma LineEscapes()
    ensures EscapeChar(0x2028 as char) == "\\u2028" && EscapeChar(0x2029 as char) == "\\u2029"
  {
  }

  lemma ControlEscapes(c: char)
    requires c < ' ' && c as int !in {8, 9, 10, 12, 13}
    ensures EscapeChar(c) == "\\u00" + (if c as int < 16 then "0" else "1") + ["0123456789abcdef"[c as int % 16]]
  {
    hide Hex;
    var d := c as int % 16;
    HexDigits(d);
    HexDigits(0);
    HexDigits(c as int / 16);
    assert "0123456789abcdef"[0] == '0' && "0123456789abcdef"[1] == '1';
    assert UnicodeEscape(c as int) == ['\\', 'u', Hex(0), Hex(0), Hex(c as int / 16), Hex(d)];
  }

  lemma HexDigits(d: nat)
    requires d < 16
    ensures Hex(d) == "0123456789abcdef"[d]
  {
    var h := "0123456789abcdef";
    assert h[0] == '0' && h[1] == '1' && h[2] == '2' && h[3] == '3' && h[4] == '4' && h[5] == '5';
    assert h[6] == '6' && h[7] == '7' && h[8] == '8' && h[9] == '9' && h[10] == 'a' && h[11] == 'b';
    assert h[12] == 'c' && h[13] == 'd' && h[14] == 'e' && h[15] == 'f';
  }

  lemma DecimalText(n: int)
    ensures n >= 0 ==> Decimal(n) == Digits(n)
    ensures n < 0 ==> Decimal(n) == "-" + Digits(-n)
  {
  }

  /** A list in brackets, its texts separated by commas. */
  lemma {:induction false} ArrayText(items: seq<string>)
    ensures Render(Texts(items)) == "[" + Join(Map(Quote, items), ",") + "]"
  {
    hide Quote;
    if items != [] {
      ItemsText(items[1..]);
      QuotedJoin(items);
      assert Quote(items[0]) + RenderItems(items[1..]) == Join(Map(Quote, items), ",") + "]";
    }
  }

  lemma {:induction false} ItemsText(items: seq<string>)
    ensures RenderItems(items) == (if items == [] then "" else "," + Join(Map(Quote, items), ",")) + "]"
  {
    hide Quote;
    if items != [] {
      ItemsText(items[1..]);
      QuotedJoin(items);
      var q, more := Quote(items[0]), if items[1..] == [] then "" else "," + Join(Map(Quote, items[1..]), ",");
      assert "," + (q + more) + "]" == [','] + q + (more + "]");
    }
  }

  lemma {:induction false} QuotedJoin(items: seq<string>)
    requires items != []
    ensures Join(Map(Quote, items), ",") ==
      Quote(items[0]) + if items[1..] == [] then "" else "," + Join(Map(Quote, items[1..]), ",")
  {
    hide Quote;
    var texts := Map(Quote, items);
    assert texts[1..] == Map(Quote, items[1..]);
  }

  /** The text of a field, with the comma before it; nothing for a field that is left out. */
  function FieldText(slot: Slot): string {
    match slot.1
    case None => ""
    case Some(v) => "," + Quote(slot.0) + ":" + Render(v)
  }

  function FieldsText(slots: Slots): string {
    if slots == [] then "" else FieldText(slots[0]) + FieldsText(slots[1..])
  }

  lemma {:induction false} RenderedFields(slots: Slots)
    ensures RenderFields(Present(slots)) == FieldsText(slots) + "}"
  {
    hide Quote, Render, FieldText;
    if slots == [] {
      assert FieldsText(slots) == "";
    } else {
      var rest := FieldsText(slots[1..]);
      RenderedFields(slots[1..]);
      OneField(slots[0], RenderFields(Present(slots[1..])));
      if slots[0].1.Some? {
        assert Present(slots)[1..] == Present(slots[1..]);
        assert RenderFields(Present(slots)) == FieldText(slots[0]) + RenderFields(Present(slots[1..]));
      }
      Assoc(FieldText(slots[0]), rest, "}");
    }
  }

  lemma OneField(slot: Slot, rest: string)
    ensures slot.1.None? ==> FieldText(slot) == ""
    ensures slot.1.Some? ==> [','] + (Quote(slot.0) + ([':'] + (Render(slot.1.value) + rest))) == FieldText(slot) + rest
  {
    hide Quote, Render;
    if slot.1.Some? {
      var name, value := Quote(slot.0), Render(slot.1.value);
      Assoc("," + name + ":", value, rest);
      Assoc("," + name, ":", value + rest);
      Assoc(",", name, ":" + (value + rest));
    }
  }

  /** A struct in braces, its present fields separated by commas. */
  lemma {:induction false} MarshalText(slots: Slots)
    requires slots != [] && slots[0].1.Some?
    ensures Marshal(slots) == "{" + Quote(slots[0].0) + ":" + Render(slots[0].1.value) + FieldsText(slots[1..]) + "}"
  {
    hide Quote, Render, RenderFields, FieldsText;
    RenderedFields(slots[1..]);
    assert Present(slots)[1..] == Present(slots[1..]);
    var name, value, rest := Quote(slots[0].0), Render(slots[0].1.value), FieldsText(slots[1..]);
    assert Marshal(slots) == ['{'] + (name + ([':'] + (value + (rest + "}"))));
    Assoc("{" + name + ":" + value, rest, "}");
    Assoc("{" + name + ":", value, rest + "}");
    Assoc("{" + name, ":", value + (rest + "}"));
    Assoc("{", name, ":" + (value + (rest + "}")));
  }

  /** `,"key":text` for a field that is written, nothing for one that is not. */
  function Part(key: string, written: bool, text: string): string {
    if written then ",\"" + key + "\":" + text else ""
  }

  lemma FieldIsPart(key: string, v: Option<Json>)
    requires PlainText(key)
    ensures FieldText((key, v)) == Part(key, v.Some?, if v.Some? then Render(v.value) else "")
  {
    hide Render;
    QuoteOfPlain(key);
    if v.Some? { assert "," + ("\"" + key + "\"") + ":" == ",\"" + key + "\":"; }
  }

  lemma {:induction false} FieldsAreParts(slots: Slots, parts: seq<string>)
    requires |slots| == |parts| && forall i :: 0 <= i < |slots| ==> parts[i] == FieldText(slots[i])
    ensures FieldsText(slots) == Flatten(parts)
  {
    hide FieldText;
    if slots != [] { FieldsAreParts(slots[1..], parts[1..]); }
  }

  /** What the field contributes to the text. */
  ghost predicate Contributes(slot: Slot, part: string) {
    PlainText(slot.0) && part == Part(slot.0, slot.1.Some?, if slot.1.Some? then Render(slot.1.value) else "")
  }

  lemma ContributionIs(slot: Slot, part: string)
    requires Contributes(slot, part)
    ensures part == FieldText(slot)
  {
    hide Render, Part, FieldText, PlainText;
    FieldIsPart(slot.0, slot.1);
  }

  /** The text of a struct whose first field is always written, part by part. */
  lemma {:induction false} StructText(key: string, v: Json, rest: Slots, parts: seq<string>)
    requires PlainText(key) && |rest| == |parts|
    requires forall i :: 0 <= i < |rest| ==> Contributes(rest[i], parts[i])
    ensures Marshal([(key, Some(v))] + rest) == "{\"" + key + "\":" + Render(v) + Flatten(parts) + "}"
  {
    hide Marshal, Render, Quote, FieldText, PlainText, Contributes, FieldsText;
    var slots := [(key, Some(v))] + rest;
    assert slots[1..] == rest;
    MarshalText(slots);
    QuoteOfPlain(key);
    forall i | 0 <= i < |rest| ensures parts[i] == FieldText(rest[i]) { ContributionIs(rest[i], parts[i]); }
    FieldsAreParts(rest, parts);
    assert "{" + ("\"" + key + "\"") + ":" == "{\"" + key + "\":";
  }

  /** Letters stand as they are. */
  lemma LettersArePlain(s: string)
    requires forall i :: 0 <= i < |s| ==> 'A' <= s[i] <= 'Z' || 'a' <= s[i] <= 'z'
    ensures PlainText(s)
  {
  }
}
