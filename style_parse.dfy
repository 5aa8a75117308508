/** The stylesheet grammar (src/style/parse.rs): nom combinators as pure functions from
    the input to `Parsed(rest, value)` or `Failed`. */
module StyleParse {
  import opened Wrappers
  import opened Nom
  import opened Style

  // ---- identifier ----

  /** Characters after the first: `alphanumeric1` or `-`. */
  predicate IsIdentChar(c: char) { IsAsciiAlphanumeric(c) || c == '-' }

  /** `identifier`: `alpha1` followed by `many0(alt((alphanumeric1, tag("-"))))`, which
      together take an ASCII letter and the maximal run of letters, digits and `-`. */
  function Identifier(s: string): (r: Parsed<string>)
    ensures r.Parsed? ==> |r.rest| < |s|
  {
    if |s| > 0 && IsAsciiAlpha(s[0]) then
      var n := 1 + Span(s[1..], IsIdentChar);
      Parsed(s[n..], s[..n])
    else
      Failed
  }

  predicate ValidIdentifier(name: string)
  {
    |name| > 0 && IsAsciiAlpha(name[0]) && forall i :: 1 <= i < |name| ==> IsIdentChar(name[i])
  }

  /** `identifier` succeeds exactly on a letter, and splits the input into a valid
      identifier and a rest that cannot continue it. */
  lemma IdentifierIsMaximal(s: string)
    ensures Identifier(s).Parsed? <==> |s| > 0 && IsAsciiAlpha(s[0])
    ensures Identifier(s).Parsed? ==>
              var r := Identifier(s);
              s == r.value + r.rest && ValidIdentifier(r.value) &&
              (r.rest == [] || !IsIdentChar(r.rest[0]))
  {
    if |s| > 0 && IsAsciiAlpha(s[0]) {
      var r := Identifier(s);
      SpanIsMaximalRun(s[1..], IsIdentChar);
      var n := 1 + Span(s[1..], IsIdentChar);
      assert s == s[..n] + s[n..];
      forall i | 1 <= i < n ensures IsIdentChar(r.value[i]) {
        assert r.value[i] == s[1..][i - 1];
      }
      if r.rest != [] {
        assert r.rest[0] == s[1..][n - 1];
      }
    }
  }

  /** A valid identifier followed by a character that cannot continue it is read exactly. */
  lemma IdentifierStopsAt(name: string, t: string)
    requires ValidIdentifier(name)
    requires t == [] || !IsIdentChar(t[0])
    ensures Identifier(name + t) == Parsed(t, name)
  {
    var s := name + t;
    SpanStopsAt(name[1..], t, IsIdentChar);
    assert s[1..] == name[1..] + t;
    assert s[..|name|] == name;
    assert s[|name|..] == t;
  }

  // ---- selectors ----

  /** `class`: `.` and an identifier. */
  function ClassSelector(s: string): (r: Parsed<Selector>)
    ensures r.Parsed? ==> |r.rest| < |s|
  {
    if |s| > 0 && s[0] == '.' then
      match Identifier(s[1..])
      case Failed => Failed
      case Parsed(rest, c) => Parsed(rest, Selector(Option.None, [c]))
    else Failed
  }

  /** `id`: `#` and an identifier. */
  function IdSelector(s: string): (r: Parsed<Selector>)
    ensures r.Parsed? ==> |r.rest| < |s|
  {
    if |s| > 0 && s[0] == '#' then
      match Identifier(s[1..])
      case Failed => Failed
      case Parsed(rest, i) => Parsed(rest, Selector(Some(i), []))
    else Failed
  }

  /** `any_selector`: a class selector, else an id selector. */
  function AnySelector(s: string): (r: Parsed<Selector>)
    ensures r.Parsed? ==> |r.rest| < |s|
  {
    match ClassSelector(s)
    case Parsed(rest, sel) => Parsed(rest, sel)
    case Failed => IdSelector(s)
  }

  /** Selectors the grammar can produce: one class, or one id. */
  predicate SimpleSelector(sel: Selector)
  {
    (sel.id.None? && |sel.classes| == 1 && ValidIdentifier(sel.classes[0])) ||
    (sel.id.Some? && sel.classes == [] && ValidIdentifier(sel.id.value))
  }

  /** A selector written out: `.class` or `#id`. */
  function SelectorText(sel: Selector): string
    requires SimpleSelector(sel)
  {
    if sel.id.Some? then "#" + sel.id.value else "." + sel.classes[0]
  }

  /** Every parsed selector is a single class or a single id, and it is read back from its
      text. */
  lemma AnySelectorShape(s: string)
    ensures AnySelector(s).Parsed? ==> SimpleSelector(AnySelector(s).value)
  {
    if |s| > 0 {
      IdentifierIsMaximal(s[1..]);
    }
  }

  /** A written-out selector followed by a character that cannot continue it is read back. */
  lemma ClassSelectorRoundTrip(c: string, t: string)
    requires ValidIdentifier(c)
    requires t == [] || !IsIdentChar(t[0])
    ensures AnySelector("." + c + t) == Parsed(t, Selector(Option.None, [c]))
  {
    assert ("." + c + t)[1..] == c + t;
    IdentifierStopsAt(c, t);
  }

  lemma IdSelectorRoundTrip(i: string, t: string)
    requires ValidIdentifier(i)
    requires t == [] || !IsIdentChar(t[0])
    ensures AnySelector("#" + i + t) == Parsed(t, Selector(Some(i), []))
  {
    assert ("#" + i + t)[1..] == i + t;
    IdentifierStopsAt(i, t);
  }

  lemma AnySelectorRoundTrip(sel: Selector, t: string)
    requires SimpleSelector(sel)
    requires t == [] || !IsIdentChar(t[0])
    ensures AnySelector(SelectorText(sel) + t) == Parsed(t, sel)
  {
    if sel.id.Some? {
      IdSelectorRoundTrip(sel.id.value, t);
    } else {
      assert sel == Selector(Option.None, [sel.classes[0]]);
      ClassSelectorRoundTrip(sel.classes[0], t);
    }
  }

  // ---- decimal ----

  const I32Min: int := -0x8000_0000
  const I32Max: int := 0x7fff_ffff

  predicate IsDigitOrUnderscore(c: char) { IsAsciiDigit(c) || c == '_' }

  predicate AllDigits(ds: string)
  {
    forall i :: 0 <= i < |ds| ==> IsAsciiDigit(ds[i])
  }

  /** The number a string of decimal digits denotes. */
  function DigitsValue(ds: string): (v: nat)
    requires AllDigits(ds)
  {
    if ds == [] then 0 else 10 * DigitsValue(ds[..|ds| - 1]) + (ds[|ds| - 1] - '0') as nat
  }

  /** Rust's `str::parse::<i32>`: an optional sign and at least one digit, nothing else,
      and a value inside the 32-bit range. */
  function ParseI32(text: string): (r: Option<int>)
    ensures r.Some? ==> I32Min <= r.value <= I32Max
    ensures r.Some? ==> '_' !in text
  {
    if text == [] then Option.None
    else
      var signed := text[0] == '+' || text[0] == '-';
      var digits := if signed then text[1..] else text;
      if digits == [] || !AllDigits(digits) then Option.None
      else
        var v: int := if text[0] == '-' then -(DigitsValue(digits) as int) else DigitsValue(digits);
        if I32Min <= v <= I32Max then
          assert forall i :: 0 <= i < |text| ==> text[i] != '_' by {
            forall i | 0 <= i < |text| ensures text[i] != '_' {
              if signed && i > 0 { assert text[i] == digits[i - 1]; }
              if !signed { assert text[i] == digits[i]; }
            }
          }
          Some(v)
        else Option.None
  }

  /** `decimal`: recognise an optional sign and digits each followed by any number of `_`,
      then convert the recognised text with `str::parse::<i32>`. */
  function Decimal(s: string): (r: Parsed<int>)
    ensures r.Parsed? ==> |r.rest| < |s|
  {
    var sign := if |s| > 0 && (s[0] == '+' || s[0] == '-') then 1 else 0;
    if |s| <= sign || !IsAsciiDigit(s[sign]) then Failed
    else
      var n := sign + Span(s[sign..], IsDigitOrUnderscore);
      match ParseI32(s[..n])
      case None => Failed
      case Some(x) => Parsed(s[n..], x)
  }

  /** Decimal digits of a natural number, most significant first. */
  function DigitsOf(n: nat): (ds: string)
    ensures |ds| > 0 && AllDigits(ds)
  {
    var d := ['0' + (n % 10) as char];
    if n < 10 then d else DigitsOf(n / 10) + d
  }

  lemma {:induction false} DigitsOfValue(n: nat)
    ensures DigitsValue(DigitsOf(n)) == n
  {
    var ds := DigitsOf(n);
    if n >= 10 {
      DigitsOfValue(n / 10);
      assert ds[..|ds| - 1] == DigitsOf(n / 10);
    }
  }

  /** A number written in decimal, with a `-` when negative. */
  function DecimalText(x: int): string
  {
    if x < 0 then "-" + DigitsOf(-x) else DigitsOf(x)
  }

  lemma DecimalTextShape(x: int, t: string)
    ensures var s := DecimalText(x) + t;
            var sign := if x < 0 then 1 else 0;
            |s| > sign && IsAsciiDigit(s[sign]) && s[sign..] == DigitsOf(if x < 0 then -x else x) + t &&
            (sign == 1 ==> s[0] == '-') && (sign == 0 ==> IsAsciiDigit(s[0]))
  {
    if x < 0 {
      var d := DigitsOf(-x);
      assert DecimalText(x) + t == "-" + (d + t);
      assert ("-" + (d + t))[1..] == d + t;
    } else {
      var d := DigitsOf(x);
      assert (d + t)[0] == d[0];
    }
  }

  /** A written-out number followed by a non-digit is read back when it fits 32 bits and is
      rejected when it does not. */
  lemma DecimalRoundTrip(x: int, t: string)
    requires t == [] || !IsDigitOrUnderscore(t[0])
    ensures Decimal(DecimalText(x) + t) == if I32Min <= x <= I32Max then Parsed(t, x) else Failed
  {
    var s := DecimalText(x) + t;
    var m: nat := if x < 0 then -x else x;
    var ds := DigitsOf(m);
    var sign := if x < 0 then 1 else 0;
    DecimalTextShape(x, t);
    assert forall i :: 0 <= i < |ds| ==> IsDigitOrUnderscore(ds[i]);
    SpanStopsAt(ds, t, IsDigitOrUnderscore);
    var n := sign + |ds|;
    DecimalTextSplit(x, t);
    DigitsOfValue(m);
    ParseI32Of(x);
  }

  lemma DecimalTextSplit(x: int, t: string)
    ensures var s := DecimalText(x) + t;
            var n := |DecimalText(x)|;
            s[..n] == DecimalText(x) && s[n..] == t
  {
  }

  lemma ParseI32Of(x: int)
    ensures ParseI32(DecimalText(x)) == if I32Min <= x <= I32Max then Some(x) else Option.None
  {
    var m: nat := if x < 0 then -x else x;
    DigitsOfValue(m);
    var text := DecimalText(x);
    if x < 0 {
      assert text[1..] == DigitsOf(m);
    } else {
      assert text[0] != '+' && text[0] != '-';
    }
  }

  /** A successful `decimal` never leaves digits or `_` right after what it read, and never
      read a `_`: `1_000` is recognised but fails to convert. */
  lemma DecimalStopsAtNonDigit(s: string)
    ensures Decimal(s).Parsed? ==>
              var r := Decimal(s);
              '_' !in s[..|s| - |r.rest|] && (r.rest == [] || !IsDigitOrUnderscore(r.rest[0]))
  {
    if Decimal(s).Parsed? {
      var sign := if |s| > 0 && (s[0] == '+' || s[0] == '-') then 1 else 0;
      SpanIsMaximalRun(s[sign..], IsDigitOrUnderscore);
      var n := sign + Span(s[sign..], IsDigitOrUnderscore);
      if n < |s| {
        assert s[n] == s[sign..][n - sign];
      }
    }
  }

  // ---- typed values ----

  /** `abs_len`: a decimal as an absolute length. */
  function AbsLen(s: string): (r: Parsed<Value>)
    ensures r.Parsed? ==> |r.rest| < |s|
  {
    match Decimal(s)
    case Failed => Failed
    case Parsed(rest, x) => Parsed(rest, AbsoluteLength(x))
  }

  /** `value(v, tag(k))`: the keyword `k` read as the value `v`. */
  function KeywordAs<T>(k: string, v: T, s: string): (r: Parsed<T>)
    requires |k| > 0
    ensures r.Parsed? ==> |r.rest| < |s|
  {
    match Tag(k, s)
    case Failed => Failed
    case Parsed(rest, _) => Parsed(rest, v)
  }

  /** `margin`: an absolute length, else `auto` as `Value::Auto`. */
  function Margin(s: string): (r: Parsed<Value>)
    ensures r.Parsed? ==> |r.rest| < |s|
    ensures r.Parsed? ==> r.value.AbsoluteLength? || (r.value == Auto && s == "auto" + r.rest)
  {
    match AbsLen(s)
    case Parsed(rest, v) => Parsed(rest, v)
    case Failed => KeywordAs("auto", Auto, s)
  }

  /** The keyword each border style is written as. */
  function BorderText(b: Border): string
  {
    match b
    case None => "none"
    case Light => "light"
    case Heavy => "heavy"
    case Double => "double"
  }

  /** `border`: one of the four border keywords. */
  function BorderStyle(s: string): (r: Parsed<Value>)
    ensures r.Parsed? ==> |r.rest| < |s|
    ensures r.Parsed? ==> r.value.Border? && s == BorderText(r.value.border) + r.rest
  {
    match KeywordAs("none", Border.None, s)
    case Parsed(rest, b) => Parsed(rest, Value.Border(b))
    case Failed =>
    match KeywordAs("light", Light, s)
    case Parsed(rest, b) => Parsed(rest, Value.Border(b))
    case Failed =>
    match KeywordAs("heavy", Heavy, s)
    case Parsed(rest, b) => Parsed(rest, Value.Border(b))
    case Failed =>
    match KeywordAs("double", Double, s)
    case Parsed(rest, b) => Parsed(rest, Value.Border(b))
    case Failed => Failed
  }

  /** The keyword each display kind is written as. */
  function DisplayText(d: DisplayKind): string
  {
    match d
    case Inline => "inline"
    case Block => "block"
    case None => "none"
  }

  /** `display_kind`: one of the three display keywords. */
  function DisplayStyle(s: string): (r: Parsed<Value>)
    ensures r.Parsed? ==> |r.rest| < |s|
    ensures r.Parsed? ==> r.value.Display? && s == DisplayText(r.value.kind) + r.rest
  {
    match KeywordAs("inline", Inline, s)
    case Parsed(rest, d) => Parsed(rest, Display(d))
    case Failed =>
    match KeywordAs("block", Block, s)
    case Parsed(rest, d) => Parsed(rest, Display(d))
    case Failed =>
    match KeywordAs("none", DisplayKind.None, s)
    case Parsed(rest, d) => Parsed(rest, Display(d))
    case Failed => Failed
  }

  /** Every border keyword, followed by anything, reads back as its border style: no
      keyword is a prefix of another, so the order of the alternatives does not matter. */
  lemma BorderStyleRoundTrip(b: Border, t: string)
    ensures BorderStyle(BorderText(b) + t) == Parsed(t, Value.Border(b))
  {
    var s := BorderText(b) + t;
    assert s[..|BorderText(b)|] == BorderText(b);
    match b
    case None =>
    case Light => assert s[0] == 'l';
    case Heavy => assert s[0] == 'h';
    case Double => assert s[0] == 'd';
  }

  /** Every display keyword, followed by anything, reads back as its display kind. */
  lemma DisplayStyleRoundTrip(d: DisplayKind, t: string)
    ensures DisplayStyle(DisplayText(d) + t) == Parsed(t, Display(d))
  {
    var s := DisplayText(d) + t;
    assert s[..|DisplayText(d)|] == DisplayText(d);
    match d
    case Inline =>
    case Block => assert s[0] == 'b';
    case None => assert s[0] == 'n';
  }

  /** `auto`, followed by anything, is a margin of `Value::Auto`: it is not a length. */
  lemma MarginAutoRoundTrip(t: string)
    ensures Margin("auto" + t) == Parsed(t, Auto)
  {
    var s := "auto" + t;
    assert s[0] == 'a';
    assert s[..4] == "auto";
  }

  /** An integer in the 32-bit range, followed by anything but a digit or `_`, is a margin
      of that length; one outside the range is no margin. */
  lemma MarginLengthRoundTrip(x: int, t: string)
    requires t == [] || !IsDigitOrUnderscore(t[0])
    ensures Margin(DecimalText(x) + t) ==
              if I32Min <= x <= I32Max then Parsed(t, AbsoluteLength(x)) else Failed
  {
    var s := DecimalText(x) + t;
    DecimalRoundTrip(x, t);
    assert s[0] == '-' || IsAsciiDigit(s[0]);
  }

  /** Which typed value parser a property name is declared with. */
  datatype ValueKind = Length | MarginLength | BorderKind | DisplayKindValue

  function ParseValue(kind: ValueKind, s: string): (r: Parsed<Value>)
    ensures r.Parsed? ==> |r.rest| < |s|
  {
    match kind
    case Length => AbsLen(s)
    case MarginLength => Margin(s)
    case BorderKind => BorderStyle(s)
    case DisplayKindValue => DisplayStyle(s)
  }

  // ---- a value followed by more text ----

  /** The outcome of a parser when `t` is appended after the whole of its input. */
  function Extend<T>(r: Parsed<T>, t: string): Parsed<T>
  {
    match r
    case Failed => Failed
    case Parsed(rest, v) => Parsed(rest + t, v)
  }

  /** Text that starts with the `;` ending a declaration, or nothing. */
  predicate AtSemicolon(t: string) { t == [] || t[0] == ';' }

  /** The sign of `v` takes all of it: no digit follows, in `v` or after the `;`. */
  lemma DecimalStableSignOnly(v: string, t: string)
    requires AtSemicolon(t)
    requires v == [] || (|v| == 1 && (v[0] == '+' || v[0] == '-'))
    ensures Decimal(v + t) == Failed && Decimal(v) == Failed
  {
    var s := v + t;
    if |s| > |v| {
      assert s[|v|] == t[0];
    }
    if v != [] {
      assert s[0] == v[0];
    }
  }

  /** After the sign, `v` has a character, which `v + t` shares; here it is no digit. */
  lemma DecimalStableNoDigit(v: string, t: string, sign: nat)
    requires sign == (if v != [] && (v[0] == '+' || v[0] == '-') then 1 else 0)
    requires |v| > sign && !IsAsciiDigit(v[sign])
    ensures Decimal(v + t) == Failed && Decimal(v) == Failed
  {
    assert (v + t)[0] == v[0] && (v + t)[sign] == v[sign];
  }

  /** Here it is a digit: both inputs recognise the same digits and convert them alike. */
  lemma DecimalStableDigits(v: string, t: string, sign: nat)
    requires AtSemicolon(t)
    requires sign == (if v != [] && (v[0] == '+' || v[0] == '-') then 1 else 0)
    requires |v| > sign && IsAsciiDigit(v[sign])
    ensures Decimal(v + t) == Extend(Decimal(v), t)
  {
    var s := v + t;
    SliceAppend(v, t, sign);
    assert s[0] == v[0] && s[sign] == v[sign];
    SpanAppend(v[sign..], t, IsDigitOrUnderscore);
    var n := sign + Span(v[sign..], IsDigitOrUnderscore);
    SliceAppend(v, t, n);
    assert Decimal(v) == match ParseI32(v[..n]) case None => Failed case Some(x) => Parsed(v[n..], x);
    assert Decimal(s) == match ParseI32(v[..n]) case None => Failed case Some(x) => Parsed(v[n..] + t, x);
  }

  lemma DecimalStable(v: string, t: string)
    requires AtSemicolon(t)
    ensures Decimal(v + t) == Extend(Decimal(v), t)
  {
    if v == [] || (|v| == 1 && (v[0] == '+' || v[0] == '-')) {
      DecimalStableSignOnly(v, t);
    } else {
      var sign := if v[0] == '+' || v[0] == '-' then 1 else 0;
      if IsAsciiDigit(v[sign]) {
        DecimalStableDigits(v, t, sign);
      } else {
        DecimalStableNoDigit(v, t, sign);
      }
    }
  }

  lemma TagStable(k: string, v: string, t: string)
    requires ';' !in k && AtSemicolon(t)
    ensures Tag(k, v + t) == Extend(Tag(k, v), t)
  {
    var s := v + t;
    if |k| <= |v| {
      assert s[..|k|] == v[..|k|];
      assert s[|k|..] == v[|k|..] + t;
    } else {
      assert k[|v|] != ';';
      assert |s| > |v| ==> s[|v|] == t[0];
    }
  }

  lemma KeywordStable<T>(k: string, x: T, v: string, t: string)
    requires |k| > 0 && ';' !in k && AtSemicolon(t)
    ensures KeywordAs(k, x, v + t) == Extend(KeywordAs(k, x, v), t)
  {
    TagStable(k, v, t);
  }

  lemma AbsLenStable(v: string, t: string)
    requires AtSemicolon(t)
    ensures AbsLen(v + t) == Extend(AbsLen(v), t)
  {
    DecimalStable(v, t);
  }

  lemma MarginStable(v: string, t: string)
    requires AtSemicolon(t)
    ensures Margin(v + t) == Extend(Margin(v), t)
  {
    AbsLenStable(v, t);
    KeywordStable("auto", Auto, v, t);
  }

  lemma BorderStyleStable(v: string, t: string)
    requires AtSemicolon(t)
    ensures BorderStyle(v + t) == Extend(BorderStyle(v), t)
  {
    KeywordStable("none", Border.None, v, t);
    KeywordStable("light", Light, v, t);
    KeywordStable("heavy", Heavy, v, t);
    KeywordStable("double", Double, v, t);
  }

  lemma DisplayStyleStable(v: string, t: string)
    requires AtSemicolon(t)
    ensures DisplayStyle(v + t) == Extend(DisplayStyle(v), t)
  {
    KeywordStable("inline", Inline, v, t);
    KeywordStable("block", Block, v, t);
    KeywordStable("none", DisplayKind.None, v, t);
  }

  /** Every typed value parser reads the same value from `v` whether or not the rest of the
      declaration follows it. */
  lemma ParseValueStable(kind: ValueKind, v: string, t: string)
    requires AtSemicolon(t)
    ensures ParseValue(kind, v + t) == Extend(ParseValue(kind, v), t)
  {
    match kind
    case Length => AbsLenStable(v, t);
    case MarginLength => MarginStable(v, t);
    case BorderKind => BorderStyleStable(v, t);
    case DisplayKindValue => DisplayStyleStable(v, t);
  }

  lemma TagLeavesSuffix(k: string, v: string)
    ensures Tag(k, v).Parsed? ==> SuffixOf(Tag(k, v).rest, v)
  {
  }

  /** Every typed value parser leaves a suffix of its input. */
  lemma ParseValueLeavesSuffix(kind: ValueKind, v: string)
    ensures ParseValue(kind, v).Parsed? ==> SuffixOf(ParseValue(kind, v).rest, v)
  {
    TagLeavesSuffix("auto", v);
    TagLeavesSuffix("none", v);
    TagLeavesSuffix("light", v);
    TagLeavesSuffix("heavy", v);
    TagLeavesSuffix("double", v);
    TagLeavesSuffix("inline", v);
    TagLeavesSuffix("block", v);
  }

  /** The value a typed parser reads from the whole of `v`, if it reads all of it. */
  function WholeValue(kind: ValueKind, v: string): (r: Option<Value>)
    ensures r.Some? <==> ParseValue(kind, v).Parsed? && ParseValue(kind, v).rest == []
    ensures r.Some? ==> r.value == ParseValue(kind, v).value
  {
    var p := ParseValue(kind, v);
    if p.Parsed? && p.rest == [] then Some(p.value) else Option.None
  }

  // ---- declarations ----

  /** `named_decl(name, value)`: the literal name, `:`, one space, a typed value, `;`. */
  function NamedDecl(name: string, kind: ValueKind, s: string): (r: Parsed<Declaration>)
    ensures r.Parsed? ==> |r.rest| < |s| && r.value.name == name
  {
    match Tag(name, s)
    case Failed => Failed
    case Parsed(r1, _) =>
      match Char(':', r1)
      case Failed => Failed
      case Parsed(r2, _) =>
        match Char(' ', r2)
        case Failed => Failed
        case Parsed(r3, _) =>
          match ParseValue(kind, r3)
          case Failed => Failed
          case Parsed(r4, x) =>
            match Char(';', r4)
            case Failed => Failed
            case Parsed(r5, _) => Parsed(r5, Declaration(name, x))
  }

  /** `unnamed_decl`: an identifier, `:`, one space, the raw text up to `;` as a keyword,
      then the `;`. */
  function UnnamedDecl(s: string): (r: Parsed<Declaration>)
    ensures r.Parsed? ==> |r.rest| < |s| && r.value.value.Keyword?
  {
    match Identifier(s)
    case Failed => Failed
    case Parsed(r1, name) =>
      match Char(':', r1)
      case Failed => Failed
      case Parsed(r2, _) =>
        match Char(' ', r2)
        case Failed => Failed
        case Parsed(r3, _) =>
          match TakeUntil(';', r3)
          case Failed => Failed
          case Parsed(r4, v) =>
            match Char(';', r4)
            case Failed => Failed
            case Parsed(r5, _) => Parsed(r5, Declaration(name, Keyword(v)))
  }

  /** The typed properties, in the order `any_decl` tries them. */
  const Properties: seq<(string, ValueKind)> := [
    ("width", Length), ("height", Length),
    ("margin", MarginLength), ("margin-top", MarginLength), ("margin-bottom", MarginLength),
    ("margin-left", MarginLength), ("margin-right", MarginLength),
    ("padding", Length), ("padding-top", Length), ("padding-bottom", Length),
    ("padding-left", Length), ("padding-right", Length),
    ("border", BorderKind), ("border-top", BorderKind), ("border-bottom", BorderKind),
    ("border-left", BorderKind), ("border-right", BorderKind),
    ("display", DisplayKindValue)
  ]

  /** `alt` over the named declarations in order, with the unnamed one last. */
  function AltDecl(props: seq<(string, ValueKind)>, s: string): (r: Parsed<Declaration>)
    ensures r.Parsed? ==> |r.rest| < |s|
  {
    if props == [] then UnnamedDecl(s)
    else
      match NamedDecl(props[0].0, props[0].1, s)
      case Parsed(rest, d) => Parsed(rest, d)
      case Failed => AltDecl(props[1..], s)
  }

  /** `any_decl`. */
  function AnyDecl(s: string): (r: Parsed<Declaration>)
    ensures r.Parsed? ==> |r.rest| < |s|
  {
    AltDecl(Properties, s)
  }

  /** The typed parser of the first table entry named `name`, if any. */
  function KindIn(props: seq<(string, ValueKind)>, name: string): (k: Option<ValueKind>)
    ensures k.Some? <==> exists i :: 0 <= i < |props| && props[i].0 == name
  {
    if props == [] then Option.None
    else if props[0].0 == name then Some(props[0].1)
    else
      var k := KindIn(props[1..], name);
      assert k.Some? ==> exists i :: 0 <= i < |props[1..]| && props[1..][i].0 == name;
      assert (exists i :: 0 <= i < |props| && props[i].0 == name) ==>
               exists i :: 0 <= i < |props[1..]| && props[1..][i].0 == name by {
        if exists i :: 0 <= i < |props| && props[i].0 == name {
          var i :| 0 <= i < |props| && props[i].0 == name;
          assert props[1..][i - 1].0 == name;
        }
      }
      k
  }

  /** The typed parser a property name is declared with, if any. */
  function KindOf(name: string): Option<ValueKind>
  {
    KindIn(Properties, name)
  }

  /** The value a declaration reading `v` gets under a typed parser, or as a plain keyword. */
  function Route(kind: Option<ValueKind>, v: string): (val: Value)
    ensures kind.None? ==> val == Keyword(v)
    ensures kind.Some? ==> val == if WholeValue(kind.value, v).Some? then WholeValue(kind.value, v).value else Keyword(v)
  {
    match kind
    case None => Keyword(v)
    case Some(k) => WholeValue(k, v).UnwrapOr(Keyword(v))
  }

  /** The value a declaration `name: v;` gets: the typed value when the property's parser
      reads all of `v`, and otherwise the raw text as a keyword. */
  function Routed(name: string, v: string): Value
  {
    Route(KindOf(name), v)
  }

  /** A declaration written out. */
  function DeclarationText(name: string, v: string): string
  {
    name + ": " + v + ";"
  }

  /** The pieces of a written-out declaration, as the parsers meet them. */
  lemma DeclarationTextParts(name: string, v: string, rest: string)
    ensures var s := DeclarationText(name, v) + rest;
            Tag(name, s) == Parsed(": " + (v + (";" + rest)), name)
  {
    var s := DeclarationText(name, v) + rest;
    assert s == name + (": " + (v + (";" + rest)));
    assert s[..|name|] == name;
    assert s[|name|..] == ": " + (v + (";" + rest));
  }

  lemma ColonSpace(x: string)
    ensures Char(':', ": " + x) == Parsed(" " + x, ':')
    ensures Char(' ', " " + x) == Parsed(x, ' ')
  {
    assert (": " + x)[1..] == " " + x;
    assert (" " + x)[1..] == x;
  }

  lemma SemicolonHead(rest: string)
    ensures Char(';', ";" + rest) == Parsed(rest, ';')
  {
    assert (";" + rest)[1..] == rest;
  }

  /** The declaration for the property itself: the typed value when its parser reads all
      of `v`, and a failure otherwise. */
  lemma NamedDeclSame(name: string, kind: ValueKind, v: string, rest: string)
    requires ';' !in v
    ensures NamedDecl(name, kind, DeclarationText(name, v) + rest) ==
              match WholeValue(kind, v)
              case Some(x) => Parsed(rest, Declaration(name, x))
              case None => Failed
  {
    var x3 := v + (";" + rest);
    DeclarationTextParts(name, v, rest);
    ColonSpace(x3);
    ParseValueStable(kind, v, ";" + rest);
    ParseValueLeavesSuffix(kind, v);
    var p := ParseValue(kind, v);
    if p.Parsed? {
      SemicolonAfterValue(p.rest, v, rest);
    }
  }

  /** After a value read from a `;`-free `v`, the `;` follows exactly when all of `v` was read. */
  lemma SemicolonAfterValue(r: string, v: string, rest: string)
    requires SuffixOf(r, v) && ';' !in v
    ensures Char(';', r + (";" + rest)) == if r == [] then Parsed(rest, ';') else Failed
  {
    if r == [] {
      assert r + (";" + rest) == ";" + rest;
      SemicolonHead(rest);
    } else {
      assert r[0] == v[|v| - |r|];
      assert (r + (";" + rest))[0] == r[0];
    }
  }

  lemma DeclarationTextAssoc(name: string, v: string, rest: string)
    ensures DeclarationText(name, v) + rest == name + (": " + (v + (";" + rest)))
  {
  }

  /** A property name that is not `name` is not a prefix of `name:` and does not extend it. */
  lemma OtherNameFails(ni: string, name: string, y: string)
    requires ValidIdentifier(ni) && ValidIdentifier(name) && ni != name
    requires |y| > 0 && y[0] == ':'
    ensures Tag(ni, name + y).Failed? ||
            (Tag(ni, name + y).rest != [] && Tag(ni, name + y).rest[0] != ':')
  {
    var s := name + y;
    if |ni| > |name| {
      assert IsIdentChar(ni[|name|]) && s[|name|] == ':';
      if |ni| <= |s| {
        assert s[..|ni|][|name|] != ni[|name|];
      }
    } else if s[..|ni|] == ni {
      assert ni == name[..|ni|];
      assert |ni| < |name|;
      assert s[|ni|..][0] == name[|ni|];
    }
  }

  /** A typed declaration for another property never reads `name: v;`. */
  lemma NamedDeclOther(ni: string, kind: ValueKind, name: string, v: string, rest: string)
    requires ValidIdentifier(ni) && ValidIdentifier(name) && ni != name
    ensures NamedDecl(ni, kind, DeclarationText(name, v) + rest) == Failed
  {
    DeclarationTextAssoc(name, v, rest);
    OtherNameFails(ni, name, ": " + (v + (";" + rest)));
  }

  lemma TakeUntilSemicolon(v: string, rest: string)
    requires ';' !in v
    ensures TakeUntil(';', v + (";" + rest)) == Parsed(";" + rest, v)
  {
    var x := v + (";" + rest);
    assert x == v + [';'] + rest;
    IndexOfPrefix(v, ';', rest);
    assert x[..|v|] == v;
    assert x[|v|..] == ";" + rest;
  }

  /** The fallback reads any `name: v;` as the keyword `v`. */
  lemma UnnamedDeclReads(name: string, v: string, rest: string)
    requires ValidIdentifier(name) && ';' !in v
    ensures UnnamedDecl(DeclarationText(name, v) + rest) == Parsed(rest, Declaration(name, Keyword(v)))
  {
    var x3 := v + (";" + rest);
    DeclarationTextAssoc(name, v, rest);
    IdentifierStopsAt(name, ": " + x3);
    ColonSpace(x3);
    TakeUntilSemicolon(v, rest);
    SemicolonHead(rest);
  }

  /** The value `alt` settles on when the alternatives are the named declarations `props`. */
  function RoutedIn(props: seq<(string, ValueKind)>, name: string, v: string): Value
  {
    if props == [] then Keyword(v)
    else if props[0].0 == name && WholeValue(props[0].1, v).Some? then WholeValue(props[0].1, v).value
    else RoutedIn(props[1..], name, v)
  }

  predicate AllNamesValid(props: seq<(string, ValueKind)>)
  {
    forall i :: 0 <= i < |props| ==> ValidIdentifier(props[i].0)
  }

  lemma {:induction false} AltDeclRouting(props: seq<(string, ValueKind)>, name: string, v: string, rest: string)
    requires AllNamesValid(props) && ValidIdentifier(name) && ';' !in v
    ensures AltDecl(props, DeclarationText(name, v) + rest) ==
              Parsed(rest, Declaration(name, RoutedIn(props, name, v)))
  {
    if props == [] {
      UnnamedDeclReads(name, v, rest);
    } else {
      assert ValidIdentifier(props[0].0);
      assert AllNamesValid(props[1..]) by {
        forall i | 0 <= i < |props[1..]| ensures ValidIdentifier(props[1..][i].0) {
          assert props[1..][i] == props[i + 1];
        }
      }
      if props[0].0 == name {
        NamedDeclSame(name, props[0].1, v, rest);
      } else {
        NamedDeclOther(props[0].0, props[0].1, name, v, rest);
      }
      AltDeclRouting(props[1..], name, v, rest);
    }
  }

  lemma PropertiesAreIdentifiers()
    ensures AllNamesValid(Properties)
  {
    forall i | 0 <= i < 6 ensures ValidIdentifier(Properties[i].0) { }
    forall i | 6 <= i < 12 ensures ValidIdentifier(Properties[i].0) { }
    forall i | 12 <= i < 18 ensures ValidIdentifier(Properties[i].0) { }
  }

  predicate DistinctNames(props: seq<(string, ValueKind)>)
  {
    forall i, j :: 0 <= i < j < |props| ==> props[i].0 != props[j].0
  }

  /** Length, first and last character: enough to tell the table's names apart. */
  function NameKey(name: string): (int, char, char)
  {
    if name == [] then (0, ' ', ' ') else (|name|, name[0], name[|name| - 1])
  }

  lemma PropertiesAreDistinct()
    ensures DistinctNames(Properties)
  {
    var keys: seq<(int, char, char)> := [
      (5, 'w', 'h'), (6, 'h', 't'), (6, 'm', 'n'), (10, 'm', 'p'), (13, 'm', 'm'), (11, 'm', 't'),
      (12, 'm', 't'), (7, 'p', 'g'), (11, 'p', 'p'), (14, 'p', 'm'), (12, 'p', 't'), (13, 'p', 't'),
      (6, 'b', 'r'), (10, 'b', 'p'), (13, 'b', 'm'), (11, 'b', 't'), (12, 'b', 't'), (7, 'd', 'y')
    ];
    forall i | 0 <= i < 6 ensures NameKey(Properties[i].0) == keys[i] { }
    forall i | 6 <= i < 12 ensures NameKey(Properties[i].0) == keys[i] { }
    forall i | 12 <= i < 18 ensures NameKey(Properties[i].0) == keys[i] { }
    forall i, j | 0 <= i < j < |Properties| ensures Properties[i].0 != Properties[j].0 {
      assert keys[i] != keys[j];
    }
  }

  /** With distinct names, `alt` settles on the one entry with the declaration's name. */
  lemma {:induction false} RoutedInDistinct(props: seq<(string, ValueKind)>, name: string, v: string)
    requires DistinctNames(props)
    ensures RoutedIn(props, name, v) == Route(KindIn(props, name), v)
  {
    if props != [] {
      assert DistinctNames(props[1..]) by {
        forall i, j | 0 <= i < j < |props[1..]| ensures props[1..][i].0 != props[1..][j].0 {
          assert props[1..][i] == props[i + 1] && props[1..][j] == props[j + 1];
        }
      }
      RoutedInDistinct(props[1..], name, v);
      if props[0].0 == name {
        forall i | 0 <= i < |props[1..]| ensures props[1..][i].0 != name {
          assert props[1..][i] == props[i + 1];
        }
      }
    }
  }

  lemma PropertiesRouteByName(name: string, v: string)
    ensures RoutedIn(Properties, name, v) == Routed(name, v)
  {
    PropertiesAreDistinct();
    RoutedInDistinct(Properties, name, v);
  }

  /** Routing by exact name: `name: v;` becomes the typed value of the property's own parser
      when that parser reads all of `v`, and the keyword `v` otherwise (unknown names, or known
      names with other values). It is never an error. */
  lemma DeclarationRouting(name: string, v: string, rest: string)
    requires ValidIdentifier(name) && ';' !in v
    ensures AnyDecl(DeclarationText(name, v) + rest) == Parsed(rest, Declaration(name, Routed(name, v)))
  {
    PropertiesAreIdentifiers();
    AltDeclRouting(Properties, name, v, rest);
    PropertiesRouteByName(name, v);
  }

  /** No declaration starts with anything but a letter: every property name and every
      identifier begins with one. */
  lemma {:induction false} AltDeclNeedsLetter(props: seq<(string, ValueKind)>, s: string)
    requires AllNamesValid(props)
    requires s == [] || !IsAsciiAlpha(s[0])
    ensures AltDecl(props, s) == Failed
  {
    if props != [] {
      assert ValidIdentifier(props[0].0);
      assert Tag(props[0].0, s) == Failed by {
        if |props[0].0| <= |s| {
          assert s[..|props[0].0|][0] == s[0];
        }
      }
      AltDeclNeedsLetter(props[1..], s);
    }
  }

  lemma AnyDeclNeedsLetter(s: string)
    requires s == [] || !IsAsciiAlpha(s[0])
    ensures AnyDecl(s) == Failed
  {
    PropertiesAreIdentifiers();
    AltDeclNeedsLetter(Properties, s);
  }

  // ---- whitespace, declaration lists, rules, stylesheets ----

  /** Whitespace that starts with a non-space character is nothing to skip. */
  lemma Multispace0NoSpace(s: string)
    requires s == [] || !IsMultispace(s[0])
    ensures Multispace0(s) == s
  {
  }

  /** One space in front of text that does not start with whitespace is skipped. */
  lemma Multispace0OneSpace(x: string)
    requires x == [] || !IsMultispace(x[0])
    ensures Multispace0(" " + x) == x
  {
    assert (" " + x)[1..] == x;
    assert Span(x, IsMultispace) == 0;
    assert Span(" " + x, IsMultispace) == 1;
  }

  /** `skip_ws(any_decl)`. */
  function SkipWsDecl(s: string): (r: Parsed<Declaration>)
    ensures r.Parsed? ==> |r.rest| < |s|
  {
    match AnyDecl(Multispace0(s))
    case Failed => Failed
    case Parsed(rest, d) => Parsed(Multispace0(rest), d)
  }

  /** `many0(skip_ws(any_decl))`: declarations until one fails, which leaves the input as it
      was before that attempt, whitespace included. It never fails. */
  function Declarations(s: string): (r: Parsed<seq<Declaration>>)
    ensures r.Parsed? && |r.rest| <= |s|
    decreases |s|
  {
    match SkipWsDecl(s)
    case Failed => Parsed(s, [])
    case Parsed(rest, d) =>
      var more := Declarations(rest);
      Parsed(more.rest, [d] + more.value)
  }

  /** `rule`: one selector, exactly one space, `{`, the declarations, `}`. */
  function ParseRule(s: string): (r: Parsed<Rule>)
    ensures r.Parsed? ==> |r.rest| < |s| && |r.value.selectors| == 1
  {
    match AnySelector(s)
    case Failed => Failed
    case Parsed(r1, sel) =>
      match Char(' ', r1)
      case Failed => Failed
      case Parsed(r2, _) =>
        match Char('{', r2)
        case Failed => Failed
        case Parsed(r3, _) =>
          var decls := Declarations(r3);
          match Char('}', decls.rest)
          case Failed => Failed
          case Parsed(r4, _) => Parsed(r4, Rule([sel], decls.value))
  }

  /** `skip_ws(rule)`. */
  function SkipWsRule(s: string): (r: Parsed<Rule>)
    ensures r.Parsed? ==> |r.rest| < |s|
  {
    match ParseRule(Multispace0(s))
    case Failed => Failed
    case Parsed(rest, x) => Parsed(Multispace0(rest), x)
  }

  /** `many0(skip_ws(rule))`. */
  function Rules(s: string): (r: Parsed<seq<Rule>>)
    ensures r.Parsed? && |r.rest| <= |s|
    decreases |s|
  {
    match SkipWsRule(s)
    case Failed => Parsed(s, [])
    case Parsed(rest, x) =>
      var more := Rules(rest);
      Parsed(more.rest, [x] + more.value)
  }

  /** `stylesheet`: `many1(skip_ws(rule))`, so at least one rule. */
  function ParseStylesheet(s: string): (r: Parsed<Stylesheet>)
    ensures r.Parsed? ==> |r.value.rules| >= 1 && |r.rest| < |s|
  {
    match SkipWsRule(s)
    case Failed => Failed
    case Parsed(rest, x) =>
      var more := Rules(rest);
      Parsed(more.rest, Stylesheet([x] + more.value))
  }

  datatype SheetResult = Ok(sheet: Stylesheet) | Err

  /** `Stylesheet::from_str` (src/style/mod.rs): the parsed stylesheet, whatever text is
      left after it; a parse failure is an error. */
  function FromStr(s: string): (r: SheetResult)
    ensures r.Ok? <==> ParseStylesheet(s).Parsed?
    ensures r.Ok? ==> r.sheet == ParseStylesheet(s).value
  {
    match ParseStylesheet(s)
    case Failed => Err
    case Parsed(_, sheet) => Ok(sheet)
  }

  // ---- reading written-out stylesheets back ----

  /** Raw declarations `name: v;` as they are written. */
  predicate WellFormedPairs(pairs: seq<(string, string)>)
  {
    forall i :: 0 <= i < |pairs| ==> ValidIdentifier(pairs[i].0) && ';' !in pairs[i].1
  }

  /** Each declaration followed by one space. */
  function DeclsText(pairs: seq<(string, string)>): string
  {
    if pairs == [] then "" else DeclarationText(pairs[0].0, pairs[0].1) + " " + DeclsText(pairs[1..])
  }

  /** The declarations `any_decl` makes of raw pairs. */
  function RoutedAll(pairs: seq<(string, string)>): (ds: seq<Declaration>)
    ensures |ds| == |pairs|
    ensures forall i :: 0 <= i < |pairs| ==> ds[i] == Declaration(pairs[i].0, Routed(pairs[i].0, pairs[i].1))
  {
    if pairs == [] then [] else [Declaration(pairs[0].0, Routed(pairs[0].0, pairs[0].1))] + RoutedAll(pairs[1..])
  }

  /** Text that cannot start a declaration, even after whitespace. */
  predicate EndsDeclarations(t: string)
  {
    t == [] || (!IsMultispace(t[0]) && !IsAsciiAlpha(t[0]))
  }

  lemma DeclsTextCons(pairs: seq<(string, string)>, rest: string)
    requires pairs != []
    ensures DeclsText(pairs) + rest ==
              DeclarationText(pairs[0].0, pairs[0].1) + (" " + (DeclsText(pairs[1..]) + rest))
  {
  }

  lemma DeclsTextStart(pairs: seq<(string, string)>, rest: string)
    requires WellFormedPairs(pairs) && EndsDeclarations(rest)
    ensures var x := DeclsText(pairs) + rest; x == [] || !IsMultispace(x[0])
  {
    if pairs != [] {
      DeclsTextCons(pairs, rest);
      assert (DeclsText(pairs) + rest)[0] == pairs[0].0[0];
    }
  }

  lemma DeclarationTextHead(name: string, v: string, t: string)
    requires ValidIdentifier(name)
    ensures var s := DeclarationText(name, v) + t; s != [] && !IsMultispace(s[0])
  {
    assert (DeclarationText(name, v) + t)[0] == name[0];
  }

  /** `skip_ws(any_decl)` reads one written-out declaration and the space after it. */
  lemma SkipWsDeclReads(name: string, v: string, x: string)
    requires ValidIdentifier(name) && ';' !in v
    requires x == [] || !IsMultispace(x[0])
    ensures SkipWsDecl(DeclarationText(name, v) + (" " + x)) == Parsed(x, Declaration(name, Routed(name, v)))
  {
    var s := DeclarationText(name, v) + (" " + x);
    DeclarationTextHead(name, v, " " + x);
    Multispace0NoSpace(s);
    DeclarationRouting(name, v, " " + x);
    Multispace0OneSpace(x);
  }

  lemma SkipWsDeclStops(rest: string)
    requires EndsDeclarations(rest)
    ensures SkipWsDecl(rest) == Failed
  {
    Multispace0NoSpace(rest);
    AnyDeclNeedsLetter(rest);
  }

  lemma WellFormedTail(pairs: seq<(string, string)>)
    requires WellFormedPairs(pairs) && pairs != []
    ensures WellFormedPairs(pairs[1..])
    ensures ValidIdentifier(pairs[0].0) && ';' !in pairs[0].1
  {
    forall i | 0 <= i < |pairs[1..]| ensures ValidIdentifier(pairs[1..][i].0) && ';' !in pairs[1..][i].1 {
      assert pairs[1..][i] == pairs[i + 1];
    }
  }

  /** Declarations written out one after the other are read back in order, each routed by
      its name, and the text after them is left. */
  lemma {:induction false} DeclarationsReadBack(pairs: seq<(string, string)>, rest: string)
    requires WellFormedPairs(pairs) && EndsDeclarations(rest)
    ensures Declarations(DeclsText(pairs) + rest) == Parsed(rest, RoutedAll(pairs))
  {
    if pairs == [] {
      SkipWsDeclStops(rest);
    } else {
      var x := DeclsText(pairs[1..]) + rest;
      DeclsTextCons(pairs, rest);
      WellFormedTail(pairs);
      DeclsTextStart(pairs[1..], rest);
      SkipWsDeclReads(pairs[0].0, pairs[0].1, x);
      DeclarationsReadBack(pairs[1..], rest);
    }
  }

  lemma Punctuation(x: string)
    ensures Char(' ', " {" + x) == Parsed("{" + x, ' ')
    ensures Char('{', "{" + x) == Parsed(x, '{')
    ensures Char('}', "}" + x) == Parsed(x, '}')
  {
    assert (" {" + x)[1..] == "{" + x;
    assert ("{" + x)[1..] == x;
    assert ("}" + x)[1..] == x;
  }

  /** A rule written out: the selector, one space, and the declarations in braces. */
  function RuleText(sel: Selector, pairs: seq<(string, string)>): string
    requires SimpleSelector(sel)
  {
    SelectorText(sel) + " {" + DeclsText(pairs) + "}"
  }

  lemma RuleTextAssoc(sel: Selector, pairs: seq<(string, string)>, t: string)
    requires SimpleSelector(sel)
    ensures RuleText(sel, pairs) + t == SelectorText(sel) + (" {" + (DeclsText(pairs) + ("}" + t)))
  {
  }

  /** A written-out rule is read back as a one-selector rule with its declarations in order. */
  lemma RuleReadBack(sel: Selector, pairs: seq<(string, string)>, t: string)
    requires SimpleSelector(sel) && WellFormedPairs(pairs)
    ensures ParseRule(RuleText(sel, pairs) + t) == Parsed(t, Rule([sel], RoutedAll(pairs)))
  {
    var d := DeclsText(pairs) + ("}" + t);
    RuleTextAssoc(sel, pairs, t);
    AnySelectorRoundTrip(sel, " {" + d);
    Punctuation(d);
    DeclarationsReadBack(pairs, "}" + t);
    Punctuation(t);
  }

  /** `{}` with nothing inside is an empty rule. */
  lemma EmptyRule(sel: Selector, t: string)
    requires SimpleSelector(sel)
    ensures ParseRule(SelectorText(sel) + " {}" + t) == Parsed(t, Rule([sel], []))
  {
    RuleReadBack(sel, [], t);
    var a := SelectorText(sel);
    assert DeclsText([]) == "" && RoutedAll([]) == [];
    assert a + " {" + "" == a + " {";
    assert (a + " {") + "}" == a + " {}";
  }

  /** `many0` gives back the whitespace in front of a failed declaration. */
  lemma DeclarationsGiveBack(t: string)
    ensures Declarations(" }" + t) == Parsed(" }" + t, [])
  {
    assert " }" + t == " " + ("}" + t);
    Multispace0OneSpace("}" + t);
    AnyDeclNeedsLetter("}" + t);
  }

  lemma SpacedBracesAssoc(sel: Selector, t: string)
    requires SimpleSelector(sel)
    ensures SelectorText(sel) + " { }" + t == SelectorText(sel) + (" {" + (" }" + t))
  {
  }

  /** `{ }` with only a space inside fails: `many0` gives the space back, and `}` does not
      match it. */
  lemma SpacedEmptyRuleFails(sel: Selector, t: string)
    requires SimpleSelector(sel)
    ensures ParseRule(SelectorText(sel) + " { }" + t) == Failed
  {
    var d := " }" + t;
    SpacedBracesAssoc(sel, t);
    AnySelectorRoundTrip(sel, " {" + d);
    Punctuation(d);
    DeclarationsGiveBack(t);
  }

  /** A bare word followed by neither `:` nor more of the word is no named declaration. */
  lemma NamedDeclNoColon(ni: string, kind: ValueKind, y: string, z: string)
    requires ValidIdentifier(ni) && ValidIdentifier(y)
    requires z != [] && !IsIdentChar(z[0]) && z[0] != ':'
    ensures NamedDecl(ni, kind, y + z) == Failed
  {
    var s := y + z;
    if |ni| > |y| {
      assert IsIdentChar(ni[|y|]) && s[|y|] == z[0];
      if |ni| <= |s| {
        assert s[..|ni|][|y|] != ni[|y|];
      }
    } else if s[..|ni|] == ni {
      if |ni| < |y| {
        assert s[|ni|..][0] == y[|ni|];
      } else {
        assert s[|ni|..] == z;
      }
    }
  }

  lemma {:induction false} AltDeclNoColon(props: seq<(string, ValueKind)>, y: string, z: string)
    requires AllNamesValid(props) && ValidIdentifier(y)
    requires z != [] && !IsIdentChar(z[0]) && z[0] != ':'
    ensures AltDecl(props, y + z) == Failed
  {
    if props == [] {
      IdentifierStopsAt(y, z);
    } else {
      NamedDeclNoColon(props[0].0, props[0].1, y, z);
      AltDeclNoColon(props[1..], y, z);
    }
  }

  /** A rule holding a bare word instead of a declaration fails, as `.x { y }` does. */
  lemma BareWordRuleFails(sel: Selector, y: string, t: string)
    requires SimpleSelector(sel) && ValidIdentifier(y)
    ensures ParseRule(SelectorText(sel) + " { " + y + " }" + t) == Failed
  {
    var d := " " + (y + (" }" + t));
    assert SelectorText(sel) + " { " + y + " }" + t == SelectorText(sel) + (" {" + d);
    AnySelectorRoundTrip(sel, " {" + d);
    Punctuation(d);
    Multispace0OneSpace(y + (" }" + t));
    PropertiesAreIdentifiers();
    AltDeclNoColon(Properties, y, " }" + t);
  }

  /** The test stylesheet `.x { y }` does not parse. */
  lemma BareWordStylesheetFails()
    ensures ParseStylesheet(".x { y }") == Failed
    ensures FromStr(".x { y }") == Err
  {
    var sel := Selector(Option.None, ["x"]);
    assert ValidIdentifier("x") && ValidIdentifier("y");
    assert SelectorText(sel) + " { " + "y" + " }" + "" == ".x { y }";
    BareWordRuleFails(sel, "y", "");
    Multispace0NoSpace(".x { y }");
  }

  /** Input that is all whitespace, the empty input included, is no stylesheet: `many1`
      needs one rule. */
  lemma WhitespaceIsNoStylesheet(s: string)
    requires forall i :: 0 <= i < |s| ==> IsMultispace(s[i])
    ensures ParseStylesheet(s) == Failed
    ensures FromStr(s) == Err
  {
    SpanStopsAt(s, [], IsMultispace);
    assert s + [] == s;
    assert Multispace0(s) == [];
  }

  /** A written-out stylesheet rule: the selector and its raw declarations. */
  type RuleSource = (Selector, seq<(string, string)>)

  predicate WellFormedRules(rs: seq<RuleSource>)
  {
    forall i :: 0 <= i < |rs| ==> SimpleSelector(rs[i].0) && WellFormedPairs(rs[i].1)
  }

  /** Each rule on a line of its own. */
  function SheetText(rs: seq<RuleSource>): string
    requires WellFormedRules(rs)
  {
    if rs == [] then "" else RuleText(rs[0].0, rs[0].1) + "\n" + SheetText(rs[1..])
  }

  function RulesOf(rs: seq<RuleSource>): (rules: seq<Rule>)
    requires WellFormedRules(rs)
    ensures |rules| == |rs|
    ensures forall i :: 0 <= i < |rs| ==> rules[i] == Rule([rs[i].0], RoutedAll(rs[i].1))
  {
    if rs == [] then [] else [Rule([rs[0].0], RoutedAll(rs[0].1))] + RulesOf(rs[1..])
  }

  /** Text that cannot start a rule, even after whitespace. */
  predicate EndsRules(t: string)
  {
    t == [] || (!IsMultispace(t[0]) && t[0] != '.' && t[0] != '#')
  }

  lemma ParseRuleNeedsSelector(s: string)
    requires s == [] || (s[0] != '.' && s[0] != '#')
    ensures ParseRule(s) == Failed
  {
  }

  lemma Multispace0Newline(x: string)
    requires x == [] || !IsMultispace(x[0])
    ensures Multispace0("\n" + x) == x
  {
    assert ("\n" + x)[1..] == x;
    assert Span(x, IsMultispace) == 0;
    assert Span("\n" + x, IsMultispace) == 1;
  }

  lemma SheetTextCons(rs: seq<RuleSource>, t: string)
    requires WellFormedRules(rs) && rs != []
    ensures WellFormedRules(rs[1..])
    ensures SimpleSelector(rs[0].0) && WellFormedPairs(rs[0].1)
    ensures SheetText(rs) + t == RuleText(rs[0].0, rs[0].1) + ("\n" + (SheetText(rs[1..]) + t))
  {
    forall i | 0 <= i < |rs[1..]| ensures SimpleSelector(rs[1..][i].0) && WellFormedPairs(rs[1..][i].1) {
      assert rs[1..][i] == rs[i + 1];
    }
  }

  lemma SheetTextStart(rs: seq<RuleSource>, t: string)
    requires WellFormedRules(rs) && EndsRules(t)
    ensures var x := SheetText(rs) + t; x == [] || !IsMultispace(x[0])
  {
    if rs != [] {
      SheetTextCons(rs, t);
      assert (SheetText(rs) + t)[0] == SelectorText(rs[0].0)[0];
    }
  }

  /** `skip_ws(rule)` reads one written-out rule and the line break after it. */
  lemma SkipWsRuleReads(sel: Selector, pairs: seq<(string, string)>, x: string)
    requires SimpleSelector(sel) && WellFormedPairs(pairs)
    requires x == [] || !IsMultispace(x[0])
    ensures SkipWsRule(RuleText(sel, pairs) + ("\n" + x)) == Parsed(x, Rule([sel], RoutedAll(pairs)))
  {
    var s := RuleText(sel, pairs) + ("\n" + x);
    assert s[0] == SelectorText(sel)[0];
    Multispace0NoSpace(s);
    RuleReadBack(sel, pairs, "\n" + x);
    Multispace0Newline(x);
  }

  lemma SkipWsRuleStops(t: string)
    requires EndsRules(t)
    ensures SkipWsRule(t) == Failed
  {
    Multispace0NoSpace(t);
    ParseRuleNeedsSelector(t);
  }

  /** Rules written out one per line are read back in order, and the text after them is
      left. */
  lemma {:induction false} RulesReadBack(rs: seq<RuleSource>, t: string)
    requires WellFormedRules(rs) && EndsRules(t)
    ensures Rules(SheetText(rs) + t) == Parsed(t, RulesOf(rs))
  {
    if rs == [] {
      SkipWsRuleStops(t);
    } else {
      SheetTextCons(rs, t);
      SheetTextStart(rs[1..], t);
      SkipWsRuleReads(rs[0].0, rs[0].1, SheetText(rs[1..]) + t);
      RulesReadBack(rs[1..], t);
    }
  }

  /** A written-out stylesheet of at least one rule is read back rule by rule, and
      `from_str` returns it whatever text follows that cannot start another rule. */
  lemma StylesheetReadBack(rs: seq<RuleSource>, t: string)
    requires WellFormedRules(rs) && rs != [] && EndsRules(t)
    ensures ParseStylesheet(SheetText(rs) + t) == Parsed(t, Stylesheet(RulesOf(rs)))
    ensures FromStr(SheetText(rs) + t) == Ok(Stylesheet(RulesOf(rs)))
  {
    SheetTextCons(rs, t);
    SheetTextStart(rs[1..], t);
    SkipWsRuleReads(rs[0].0, rs[0].1, SheetText(rs[1..]) + t);
    RulesReadBack(rs[1..], t);
  }

  // ---- routing examples ----

  /** A property in the table gets the parser of its entry. */
  lemma {:induction false} KindInEntry(props: seq<(string, ValueKind)>, i: nat)
    requires DistinctNames(props) && i < |props|
    ensures KindIn(props, props[i].0) == Some(props[i].1)
  {
    if i > 0 {
      assert DistinctNames(props[1..]) by {
        forall a, b | 0 <= a < b < |props[1..]| ensures props[1..][a].0 != props[1..][b].0 {
          assert props[1..][a] == props[a + 1] && props[1..][b] == props[b + 1];
        }
      }
      assert props[1..][i - 1] == props[i];
      KindInEntry(props[1..], i - 1);
    }
  }

  lemma KindOfEntry(i: nat)
    requires i < |Properties|
    ensures KindOf(Properties[i].0) == Some(Properties[i].1)
  {
    PropertiesAreDistinct();
    KindInEntry(Properties, i);
  }

  lemma KindsOfExamples()
    ensures KindOf("width") == Some(Length)
    ensures KindOf("margin") == Some(MarginLength)
    ensures KindOf("padding-left") == Some(Length)
    ensures KindOf("border-left") == Some(BorderKind)
    ensures KindOf("display") == Some(DisplayKindValue)
  {
    KindOfEntry(0);
    KindOfEntry(2);
    KindOfEntry(10);
    KindOfEntry(15);
    KindOfEntry(17);
  }

  lemma LengthValues()
    ensures WholeValue(Length, "12") == Some(AbsoluteLength(12))
    ensures WholeValue(Length, "-3") == Some(AbsoluteLength(-3))
  {
    DecimalRoundTrip(12, []);
    assert DecimalText(12) + [] == "12";
    DecimalRoundTrip(-3, []);
    assert DecimalText(-3) + [] == "-3";
  }

  lemma KeywordValues()
    ensures WholeValue(Length, "auto") == Option.None
    ensures WholeValue(MarginLength, "auto") == Some(Auto)
    ensures WholeValue(BorderKind, "double") == Some(Value.Border(Double))
    ensures WholeValue(DisplayKindValue, "none") == Some(Display(DisplayKind.None))
    ensures WholeValue(DisplayKindValue, "flex") == Option.None
  {
    assert "auto"[..4] == "auto";
    assert "double"[..4][0] == 'd';
    assert "double"[..5][0] == 'd';
    assert "double"[..6] == "double";
    assert "none"[..4] == "none";
    assert "flex"[..4][0] == 'f';
  }

  /** Lengths go to width, height and the paddings, negative ones included. */
  lemma LengthExamples()
    ensures Routed("width", "12") == AbsoluteLength(12)
    ensures Routed("padding-left", "-3") == AbsoluteLength(-3)
  {
    KindsOfExamples();
    LengthValues();
  }

  /** `auto` is a value only for the margins; for `width` it stays a keyword. */
  lemma AutoExamples()
    ensures Routed("width", "auto") == Keyword("auto")
    ensures Routed("margin", "auto") == Auto
  {
    KindsOfExamples();
    KeywordValues();
  }

  lemma BorderExample()
    ensures Routed("border-left", "double") == Value.Border(Double)
  {
    KindsOfExamples();
    KeywordValues();
  }

  lemma DisplayExamples()
    ensures Routed("display", "none") == Display(DisplayKind.None)
    ensures Routed("display", "flex") == Keyword("flex")
  {
    KindsOfExamples();
    KeywordValues();
  }

  /** A name outside the table is read as a keyword whatever its value. */
  lemma UnknownPropertyExample()
    ensures Routed("color", "red") == Keyword("red")
  {
    assert forall i :: 0 <= i < |Properties| ==> Properties[i].0[0] != 'c';
  }

  /** `_` passes the recogniser but not the integer conversion, so `1_000` is a keyword. */
  lemma UnderscoreIsNoLength()
    ensures Routed("width", "1_000") == Keyword("1_000")
  {
    KindsOfExamples();
    UnderscoreValue();
  }

  lemma UnderscoreValue()
    ensures WholeValue(Length, "1_000") == Option.None
  {
    DecimalStopsAtNonDigit("1_000");
    assert "1_000"[1] == '_';
    assert "1_000"[..5] == "1_000";
  }
}
