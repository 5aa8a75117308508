/** The opening-tag parser of the markup language (src/content_tree/parse.rs).
    Each nom combinator becomes a function from the input to `Parsed(rest, value)`
    or `Failed`; `rest` is always a suffix of the input. */
module MarkupParse {
  import opened Wrappers
  import opened Nom
  import opened ContentTree

  /** An attribute as parsed: its name and its raw value. */
  type Attribute = (string, string)

  /** First character of an identifier: nom's `alpha1`, `_` or `:`. */
  predicate IsIdentStart(c: char) { IsAsciiAlpha(c) || c == '_' || c == ':' }

  /** Later characters: `alphanumeric1`, `_`, `:` or `.`. */
  predicate IsIdentChar(c: char) { IsAsciiAlpha(c) || IsAsciiDigit(c) || c == '_' || c == ':' || c == '.' }

  /** `identifier`: a start character followed by the maximal run of identifier characters. */
  function Identifier(s: string): (r: Parsed<string>)
    ensures r.Parsed? ==> |r.rest| < |s|
  {
    if |s| > 0 && IsIdentStart(s[0]) then
      var n := 1 + Span(s[1..], IsIdentChar);
      Parsed(s[n..], s[..n])
    else
      Failed
  }

  /** A well-formed markup identifier. */
  predicate ValidIdentifier(name: string)
  {
    |name| > 0 && IsIdentStart(name[0]) && forall i :: 1 <= i < |name| ==> IsIdentChar(name[i])
  }

  /** `identifier` succeeds exactly on a start character, and then splits the input into a
      valid identifier and a rest that cannot continue it. */
  lemma IdentifierIsMaximal(s: string)
    ensures Identifier(s).Parsed? <==> |s| > 0 && IsIdentStart(s[0])
    ensures Identifier(s).Parsed? ==>
              var r := Identifier(s);
              s == r.value + r.rest && ValidIdentifier(r.value) &&
              (r.rest == [] || !IsIdentChar(r.rest[0]))
  {
    if |s| > 0 && IsIdentStart(s[0]) {
      var r := Identifier(s);
      SpanIsMaximalRun(s[1..], IsIdentChar);
      var n := 1 + Span(s[1..], IsIdentChar);
      assert s == s[..n] + s[n..];
      forall i | 1 <= i < n ensures IsIdentChar(r.value[i]) {
        assert r.value[i] == s[1..][i - 1];
      }
      if r.rest != [] {
        assert r.rest[0] == s[1..][n - 1];
      }
    }
  }

  /** `attribute_value`: `="`, everything up to the next `"`, then that `"`. */
  function AttributeValue(s: string): (r: Parsed<string>)
    ensures r.Parsed? ==> |r.rest| < |s|
  {
    if |s| >= 2 && s[0] == '=' && s[1] == '"' then
      match IndexOf(s[2..], '"')
      case None => Failed
      case Some(k) => Parsed(s[2 + k + 1..], s[2..2 + k])
    else
      Failed
  }

  /** An attribute value is the text between the quotes, and it never contains a quote. */
  lemma AttributeValueIsQuoted(s: string)
    ensures AttributeValue(s).Parsed? ==>
              var r := AttributeValue(s);
              '"' !in r.value && s == "=\"" + r.value + "\"" + r.rest
  {
    if AttributeValue(s).Parsed? {
      var r := AttributeValue(s);
      IndexOfFindsFirst(s[2..], '"');
      var k := IndexOf(s[2..], '"').value;
      assert r.value == s[2..][..k];
      assert s == s[..2] + s[2..2 + k] + [s[2 + k]] + s[2 + k + 1..];
    }
  }

  /** Every quote-free value followed by a closing quote is read back exactly. */
  lemma AttributeValueRoundTrip(v: string, rest: string)
    requires '"' !in v
    ensures AttributeValue("=\"" + v + "\"" + rest) == Parsed(rest, v)
  {
    var s := "=\"" + v + "\"" + rest;
    assert s[2..] == v + "\"" + rest;
    IndexOfPrefix(v, '"', rest);
    assert s[2..2 + |v|] == v;
    assert s[2 + |v| + 1..] == rest;
  }

  /** `any_attribute`: an identifier immediately followed by an attribute value. */
  function AnyAttribute(s: string): (r: Parsed<Attribute>)
    ensures r.Parsed? ==> |r.rest| < |s|
  {
    match Identifier(s)
    case Failed => Failed
    case Parsed(r1, name) =>
      match AttributeValue(r1)
      case Failed => Failed
      case Parsed(r2, v) => Parsed(r2, (name, v))
  }

  /** `multispace1`: one or more whitespace characters. */
  function Multispace1(s: string): (r: Parsed<string>)
    ensures r.Parsed? ==> |r.rest| < |s|
  {
    var n := Span(s, IsMultispace);
    if n > 0 then Parsed(s[n..], s[..n]) else Failed
  }

  /** `separated_list0(multispace1, any_attribute)`. It never fails; when a separator
      is not followed by an attribute, the input is given back from before the separator. */
  function AttributeList(s: string): (r: Parsed<seq<Attribute>>)
    ensures r.Parsed? && |r.rest| <= |s|
  {
    match AnyAttribute(s)
    case Failed => Parsed(s, [])
    case Parsed(r1, a) => MoreAttributes(r1, [a])
  }

  function MoreAttributes(s: string, acc: seq<Attribute>): (r: Parsed<seq<Attribute>>)
    ensures r.Parsed? && |r.rest| <= |s|
    decreases |s|
  {
    match Multispace1(s)
    case Failed => Parsed(s, acc)
    case Parsed(r1, _) =>
      match AnyAttribute(r1)
      case Failed => Parsed(s, acc)
      case Parsed(r2, a) => MoreAttributes(r2, acc + [a])
  }

  /** `opt(preceded(multispace1, separated_list0(multispace1, any_attribute)))`:
      no whitespace after the tag name means no attributes. */
  function AttributesAfterName(s: string): (r: Parsed<seq<Attribute>>)
    ensures r.Parsed? && |r.rest| <= |s|
  {
    match Multispace1(s)
    case Failed => Parsed(s, [])
    case Parsed(r1, _) => AttributeList(r1)
  }

  /** The grammar of `open_tag`: `<`, the tag name, optionally whitespace and a
      whitespace-separated attribute list, then `>`. */
  function OpenTagSyntax(s: string): (r: Parsed<(string, seq<Attribute>)>)
    ensures r.Parsed? ==> |r.rest| < |s|
  {
    if |s| == 0 || s[0] != '<' then Failed
    else
      match Identifier(s[1..])
      case Failed => Failed
      case Parsed(r1, name) =>
        var l := AttributesAfterName(r1);
        if |l.rest| > 0 && l.rest[0] == '>' then Parsed(l.rest[1..], (name, l.value)) else Failed
  }

  // ---- Every parser leaves a suffix of its input ----

  lemma AnyAttributeLeavesSuffix(s: string)
    ensures AnyAttribute(s).Parsed? ==> SuffixOf(AnyAttribute(s).rest, s)
  {
    if AnyAttribute(s).Parsed? {
      IdentifierIsMaximal(s);
      var i := Identifier(s);
      AttributeValueIsQuoted(i.rest);
      var v := AttributeValue(i.rest);
      SuffixOfAppend(i.value, i.rest);
      SuffixOfAppend("=\"" + v.value + "\"", v.rest);
      SuffixTrans(v.rest, i.rest, s);
    }
  }

  lemma Multispace1LeavesSuffix(s: string)
    ensures Multispace1(s).Parsed? ==> SuffixOf(Multispace1(s).rest, s)
  {
  }

  lemma {:induction false} MoreAttributesLeavesSuffix(s: string, acc: seq<Attribute>)
    ensures SuffixOf(MoreAttributes(s, acc).rest, s)
    decreases |s|
  {
    assert s[|s| - |s|..] == s;
    if Multispace1(s).Parsed? {
      var r1 := Multispace1(s).rest;
      if AnyAttribute(r1).Parsed? {
        var r2 := AnyAttribute(r1).rest;
        Multispace1LeavesSuffix(s);
        AnyAttributeLeavesSuffix(r1);
        SuffixTrans(r2, r1, s);
        MoreAttributesLeavesSuffix(r2, acc + [AnyAttribute(r1).value]);
        SuffixTrans(MoreAttributes(s, acc).rest, r2, s);
      }
    }
  }

  lemma AttributesAfterNameLeavesSuffix(s: string)
    ensures SuffixOf(AttributesAfterName(s).rest, s)
  {
    assert s[|s| - |s|..] == s;
    if Multispace1(s).Parsed? {
      var r1 := Multispace1(s).rest;
      Multispace1LeavesSuffix(s);
      assert r1[|r1| - |r1|..] == r1;
      if AnyAttribute(r1).Parsed? {
        var r2 := AnyAttribute(r1).rest;
        AnyAttributeLeavesSuffix(r1);
        MoreAttributesLeavesSuffix(r2, [AnyAttribute(r1).value]);
        SuffixTrans(AttributeList(r1).rest, r2, r1);
      }
      SuffixTrans(AttributesAfterName(s).rest, r1, s);
    }
  }

  /** What remains after an opening tag is exactly the input after its closing `>`, and
      the tag name is the identifier right after `<`. */
  lemma OpenTagLeavesTextAfterGt(s: string)
    ensures OpenTagSyntax(s).Parsed? ==>
              var r := OpenTagSyntax(s);
              SuffixOf(r.rest, s) && s[|s| - |r.rest| - 1] == '>' && s[0] == '<' &&
              Identifier(s[1..]).Parsed? && r.value.0 == Identifier(s[1..]).value
  {
    if OpenTagSyntax(s).Parsed? {
      var r1 := Identifier(s[1..]).rest;
      IdentifierIsMaximal(s[1..]);
      assert SuffixOf(r1, s) by {
        assert s == [s[0]] + s[1..];
        assert s[1..] == Identifier(s[1..]).value + r1;
      }
      var l := AttributesAfterName(r1);
      AttributesAfterNameLeavesSuffix(r1);
      SuffixTrans(l.rest, r1, s);
      assert SuffixOf(l.rest[1..], l.rest);
      SuffixTrans(l.rest[1..], l.rest, s);
    }
  }

  /** Rust's `str::split(' ')`: every piece, including empty ones between adjacent separators. */
  function Split(s: string, sep: char): (pieces: seq<string>)
    ensures |pieces| > 0
    ensures forall i :: 0 <= i < |pieces| ==> sep !in pieces[i]
    decreases |s|
  {
    match IndexOf(s, sep)
    case None => IndexOfFindsFirst(s, sep); [s]
    case Some(k) => IndexOfFindsFirst(s, sep); [s[..k]] + Split(s[k + 1..], sep)
  }

  /** Pieces glued back together with the separator. */
  function Join(pieces: seq<string>, sep: char): string
    requires |pieces| > 0
  {
    if |pieces| == 1 then pieces[0] else pieces[0] + [sep] + Join(pieces[1..], sep)
  }

  /** Splitting loses nothing: joining the pieces gives back the input. */
  lemma {:induction false} JoinSplit(s: string, sep: char)
    ensures Join(Split(s, sep), sep) == s
    decreases |s|
  {
    match IndexOf(s, sep)
    case None =>
    case Some(k) =>
      JoinSplit(s[k + 1..], sep);
      IndexOfFindsFirst(s, sep);
      assert s == s[..k] + [sep] + s[k + 1..];
  }

  /** The value of the last attribute called `name`, if any: a later attribute wins. */
  function LastValue(attrs: seq<Attribute>, name: string): (r: Option<string>)
  {
    if attrs == [] then None
    else if attrs[|attrs| - 1].0 == name then Some(attrs[|attrs| - 1].1)
    else LastValue(attrs[..|attrs| - 1], name)
  }

  /** The classes a `class` value names: its space-separated pieces. */
  function ClassesOf(v: string): (cs: set<string>)
    ensures forall c :: c in cs <==> c in Split(v, ' ')
  {
    set c | c in Split(v, ' ')
  }

  /** The class set the last `class` attribute gives, empty without one. */
  function ClassSet(v: Option<string>): set<string>
  {
    match v
    case None => {}
    case Some(s) => ClassesOf(s)
  }

  /** Whether some attribute is the unsupported `style`. */
  predicate HasStyle(attrs: seq<Attribute>)
  {
    LastValue(attrs, "style").Some?
  }

  /** The element an open tag describes: the last `id`, the pieces of the last `class`,
      and always the tag name as a class. */
  function ElementOf(name: string, attrs: seq<Attribute>): (e: ElementData)
    ensures name in e.classes
    ensures e.id == LastValue(attrs, "id")
  {
    ElementData(LastValue(attrs, "id"), ClassSet(LastValue(attrs, "class")) + {name})
  }

  /** Outcome of `open_tag`: the remaining input and the element, a grammar failure,
      or the unsupported-feature failure that a `style` attribute raises. */
  datatype TagResult = Tag(rest: string, element: ElementData) | SyntaxError | Unsupported

  /** What `open_tag` produces for an input. */
  function OpenTagResult(s: string): (r: TagResult)
    ensures r.SyntaxError? <==> OpenTagSyntax(s).Failed?
  {
    match OpenTagSyntax(s)
    case Failed => SyntaxError
    case Parsed(rest, (name, attrs)) =>
      if HasStyle(attrs) then Unsupported else Tag(rest, ElementOf(name, attrs))
  }

  /** How the facts the attribute loop tracks grow by one attribute. */
  lemma AttributePrefixStep(attrs: seq<Attribute>, i: nat)
    requires i < |attrs|
    ensures LastValue(attrs[..i + 1], "class") ==
              if attrs[i].0 == "class" then Some(attrs[i].1) else LastValue(attrs[..i], "class")
    ensures LastValue(attrs[..i + 1], "id") ==
              if attrs[i].0 == "id" then Some(attrs[i].1) else LastValue(attrs[..i], "id")
    ensures HasStyle(attrs[..i + 1]) <==> HasStyle(attrs[..i]) || attrs[i].0 == "style"
  {
    assert attrs[..i + 1][..i] == attrs[..i];
  }

  /** An attribute name present in a prefix is present in the whole list. */
  lemma {:induction false} NamePresentInWhole(attrs: seq<Attribute>, k: nat, name: string)
    requires k <= |attrs| && LastValue(attrs[..k], name).Some?
    ensures LastValue(attrs, name).Some?
    decreases |attrs| - k
  {
    if k < |attrs| {
      AttributePrefixStep(attrs, k);
      assert attrs[..k + 1][..k] == attrs[..k];
      NamePresentInWhole(attrs, k + 1, name);
    } else {
      assert attrs[..k] == attrs;
    }
  }

  /** `open_tag`: parse the tag, then walk its attributes, reassigning the class set and
      the id as they come, and finally add the tag name to the classes. */
  method OpenTag(input: string) returns (r: TagResult)
    ensures r == OpenTagResult(input)
  {
    var syntax := OpenTagSyntax(input);
    if syntax.Failed? {
      return SyntaxError;
    }
    var element := ResolveAttributes(syntax.value.0, syntax.value.1);
    r := if element.None? then Unsupported else Tag(syntax.rest, element.value);
  }

  /** The attribute loop of `open_tag`: `None` when it reaches a `style` attribute. */
  method ResolveAttributes(name: string, attrs: seq<Attribute>) returns (element: Option<ElementData>)
    ensures element == if HasStyle(attrs) then None else Some(ElementOf(name, attrs))
  {
    var classes: set<string> := {};
    var id: Option<string> := None;
    var i := 0;
    while i < |attrs|
      invariant 0 <= i <= |attrs|
      invariant id == LastValue(attrs[..i], "id")
      invariant classes == ClassSet(LastValue(attrs[..i], "class"))
      invariant !HasStyle(attrs[..i])
    {
      var n, v := attrs[i].0, attrs[i].1;
      AttributePrefixStep(attrs, i);
      if n == "class" {
        classes := ClassesOf(v);
      } else if n == "id" {
        id := Some(v);
      } else if n == "style" {
        NamePresentInWhole(attrs, i + 1, "style");
        return None;
      }
      i := i + 1;
    }
    assert attrs[..|attrs|] == attrs;
    classes := classes + {name};
    element := Some(ElementData(id, classes));
  }

  // ---- Properties of the open-tag grammar ----

  /** An attribute that can be written down and read back: a valid name and a quote-free value. */
  predicate ValidAttribute(a: Attribute)
  {
    ValidIdentifier(a.0) && '"' !in a.1
  }

  /** One attribute written out: `name="value"`. */
  function AttributeText(a: Attribute): string
  {
    a.0 + "=\"" + a.1 + "\""
  }

  /** Attributes written as ` name="value"` each. */
  function RenderAttributes(attrs: seq<Attribute>): string
  {
    if attrs == [] then "" else " " + AttributeText(attrs[0]) + RenderAttributes(attrs[1..])
  }

  /** An opening tag written out: `<name name1="v1" ...>`. */
  function RenderTag(name: string, attrs: seq<Attribute>): string
  {
    "<" + name + RenderAttributes(attrs) + ">"
  }

  /** An identifier is read up to the first character that cannot continue it. */
  lemma IdentifierStopsAt(name: string, t: string)
    requires ValidIdentifier(name)
    requires t == [] || !IsIdentChar(t[0])
    ensures Identifier(name + t) == Parsed(t, name)
  {
    var s := name + t;
    SpanStopsAt(name[1..], t, IsIdentChar);
    assert s[1..] == name[1..] + t;
    assert s[..|name|] == name;
    assert s[|name|..] == t;
  }

  /** A single separating space before a non-space character. */
  lemma OneSpace(t: string)
    requires t != [] && !IsMultispace(t[0])
    ensures Multispace1(" " + t) == Parsed(t, " ")
  {
    SpanStopsAt(" ", t, IsMultispace);
    assert (" " + t)[1..] == t;
    assert (" " + t)[..1] == " ";
  }

  /** One written-out attribute followed by `t` is read back as that attribute. */
  lemma AnyAttributeReadsBack(a: Attribute, t: string)
    requires ValidAttribute(a)
    ensures AnyAttribute(AttributeText(a) + t) == Parsed(t, a)
  {
    var v := "=\"" + a.1 + "\"" + t;
    assert AttributeText(a) + t == a.0 + v;
    IdentifierStopsAt(a.0, v);
    AttributeValueRoundTrip(a.1, t);
  }

  /** One step of the separated-list loop over a written-out attribute. */
  lemma MoreAttributesStep(a: Attribute, t: string, acc: seq<Attribute>)
    requires ValidAttribute(a)
    ensures MoreAttributes(" " + AttributeText(a) + t, acc) == MoreAttributes(t, acc + [a])
  {
    var body := AttributeText(a) + t;
    assert " " + AttributeText(a) + t == " " + body;
    assert body[0] == a.0[0];
    OneSpace(body);
    AnyAttributeReadsBack(a, t);
  }

  /** Peeling the first attribute off a written-out attribute list. */
  lemma RenderAttributesCons(attrs: seq<Attribute>, rest: string)
    requires attrs != [] && ValidAttribute(attrs[0])
    ensures RenderAttributes(attrs) + ">" + rest ==
            " " + AttributeText(attrs[0]) + (RenderAttributes(attrs[1..]) + ">" + rest)
    ensures var body := AttributeText(attrs[0]) + (RenderAttributes(attrs[1..]) + ">" + rest);
            body != [] && IsIdentStart(body[0]) && !IsMultispace(body[0])
  {
    var a := attrs[0];
    var t := RenderAttributes(attrs[1..]) + ">" + rest;
    assert (AttributeText(a) + t)[0] == a.0[0];
  }

  /** Every attribute in the list can be written down and read back. */
  predicate AllValid(attrs: seq<Attribute>)
  {
    forall i :: 0 <= i < |attrs| ==> ValidAttribute(attrs[i])
  }

  /** One turn of the list loop over a written-out attribute list. */
  lemma MoreAttributesListStep(attrs: seq<Attribute>, acc: seq<Attribute>, rest: string)
    requires attrs != [] && AllValid(attrs)
    ensures AllValid(attrs[1..])
    ensures MoreAttributes(RenderAttributes(attrs) + ">" + rest, acc) ==
            MoreAttributes(RenderAttributes(attrs[1..]) + ">" + rest, acc + [attrs[0]])
  {
    assert ValidAttribute(attrs[0]);
    RenderAttributesCons(attrs, rest);
    MoreAttributesStep(attrs[0], RenderAttributes(attrs[1..]) + ">" + rest, acc);
  }

  lemma MoreAttributesAtGt(attrs: seq<Attribute>, acc: seq<Attribute>, rest: string)
    requires attrs == []
    ensures MoreAttributes(RenderAttributes(attrs) + ">" + rest, acc) == Parsed(">" + rest, acc + attrs)
  {
    assert RenderAttributes(attrs) + ">" + rest == ">" + rest;
    assert acc + attrs == acc;
  }

  /** The separated-list loop reads back every written-out attribute and stops before `>`. */
  lemma {:induction false} MoreAttributesReadBack(attrs: seq<Attribute>, acc: seq<Attribute>, rest: string)
    requires AllValid(attrs)
    ensures MoreAttributes(RenderAttributes(attrs) + ">" + rest, acc) == Parsed(">" + rest, acc + attrs)
    decreases |attrs|
  {
    if attrs == [] {
      MoreAttributesAtGt(attrs, acc, rest);
    } else {
      MoreAttributesListStep(attrs, acc, rest);
      MoreAttributesReadBack(attrs[1..], acc + [attrs[0]], rest);
      ConsAppend(acc, attrs);
    }
  }

  /** Round trip of the tag grammar: a written-out tag is parsed back into its name and
      attributes, in order, and exactly the text after `>` remains. */
  lemma OpenTagSyntaxRoundTrip(name: string, attrs: seq<Attribute>, rest: string)
    requires ValidIdentifier(name)
    requires AllValid(attrs)
    ensures OpenTagSyntax(RenderTag(name, attrs) + rest) == Parsed(rest, (name, attrs))
  {
    var r1 := RenderAttributes(attrs) + ">" + rest;
    RenderTagShape(name, attrs, rest);
    AttributesAfterNameReadBack(attrs, rest);
    AttributeTextStart(attrs, rest);
    IdentifierStopsAt(name, r1);
    GtRest(rest);
  }

  lemma GtRest(rest: string)
    ensures (">" + rest)[1..] == rest
  {
  }

  /** A written-out tag starts with `<`, then the name, then the attribute text. */
  lemma RenderTagShape(name: string, attrs: seq<Attribute>, rest: string)
    ensures var s := RenderTag(name, attrs) + rest;
            |s| > 0 && s[0] == '<' && s[1..] == name + (RenderAttributes(attrs) + ">" + rest)
  {
    var s := RenderTag(name, attrs) + rest;
    assert s == "<" + (name + (RenderAttributes(attrs) + ">" + rest));
  }

  /** The attribute text of a tag starts with a space or with the closing `>`. */
  lemma AttributeTextStart(attrs: seq<Attribute>, rest: string)
    ensures var r1 := RenderAttributes(attrs) + ">" + rest;
            r1 != [] && (r1[0] == ' ' || r1[0] == '>')
  {
  }

  /** The optional attribute part after the tag name reads back the whole list. */
  lemma AttributesAfterNameReadBack(attrs: seq<Attribute>, rest: string)
    requires AllValid(attrs)
    ensures AttributesAfterName(RenderAttributes(attrs) + ">" + rest) == Parsed(">" + rest, attrs)
  {
    if attrs == [] {
      AttributesAfterNameNone(attrs, rest);
    } else {
      AttributesAfterNameSome(attrs, rest);
    }
  }

  lemma AttributesAfterNameNone(attrs: seq<Attribute>, rest: string)
    requires attrs == []
    ensures AttributesAfterName(RenderAttributes(attrs) + ">" + rest) == Parsed(">" + rest, attrs)
  {
    NoAttributesText(attrs, rest);
  }

  lemma AttributesAfterNameSome(attrs: seq<Attribute>, rest: string)
    requires attrs != [] && AllValid(attrs)
    ensures AttributesAfterName(RenderAttributes(attrs) + ">" + rest) == Parsed(">" + rest, attrs)
  {
    AttributesAfterNameFirst(attrs, rest);
    MoreAttributesReadBack(attrs[1..], [attrs[0]], rest);
    ConsSplit(attrs);
  }

  lemma AttributesAfterNameFirst(attrs: seq<Attribute>, rest: string)
    requires attrs != [] && AllValid(attrs)
    ensures AllValid(attrs[1..])
    ensures var r1 := RenderAttributes(attrs) + ">" + rest;
            r1 != [] && r1[0] == ' '
    ensures AttributesAfterName(RenderAttributes(attrs) + ">" + rest) ==
            MoreAttributes(RenderAttributes(attrs[1..]) + ">" + rest, [attrs[0]])
  {
    var t := RenderAttributes(attrs[1..]) + ">" + rest;
    var body := AttributeText(attrs[0]) + t;
    assert ValidAttribute(attrs[0]);
    RenderAttributesCons(attrs, rest);
    SpaceAssoc(AttributeText(attrs[0]), t);
    OneSpace(body);
    AnyAttributeReadsBack(attrs[0], t);
  }

  lemma SpaceAssoc(x: string, t: string)
    ensures " " + x + t == " " + (x + t)
  {
  }

  lemma NoAttributesText(attrs: seq<Attribute>, rest: string)
    requires attrs == []
    ensures RenderAttributes(attrs) + ">" + rest == ">" + rest
  {
  }

  /** The last value of a name is unaffected by an attribute with another name. */
  lemma {:induction false} LastValueSkipsOtherName(xs: seq<Attribute>, a: Attribute, ys: seq<Attribute>, name: string)
    requires a.0 != name
    ensures LastValue(xs + [a] + ys, name) == LastValue(xs + ys, name)
    decreases |ys|
  {
    if ys == [] {
      assert (xs + [a] + ys)[..|xs + [a] + ys| - 1] == xs;
      assert xs + ys == xs;
    } else {
      var ys' := ys[..|ys| - 1];
      assert (xs + [a] + ys)[..|xs + [a] + ys| - 1] == xs + [a] + ys';
      assert (xs + ys)[..|xs + ys| - 1] == xs + ys';
      LastValueSkipsOtherName(xs, a, ys', name);
    }
  }

  /** Attributes other than `class`, `id` and `style` are read but change nothing. */
  lemma IgnoredAttribute(name: string, xs: seq<Attribute>, a: Attribute, ys: seq<Attribute>)
    requires a.0 != "class" && a.0 != "id" && a.0 != "style"
    ensures ElementOf(name, xs + [a] + ys) == ElementOf(name, xs + ys)
    ensures HasStyle(xs + [a] + ys) == HasStyle(xs + ys)
  {
    LastValueSkipsOtherName(xs, a, ys, "class");
    LastValueSkipsOtherName(xs, a, ys, "id");
    LastValueSkipsOtherName(xs, a, ys, "style");
  }

  /** A `class` attribute after all others decides the class set alone; earlier ones are
      replaced, not merged. */
  lemma LaterClassReplaces(name: string, attrs: seq<Attribute>, v: string)
    ensures ElementOf(name, attrs + [("class", v)]).classes == ClassesOf(v) + {name}
  {
  }

  /** A tag with no `class` attribute has exactly its tag name as class, and no `id` means
      no id. */
  lemma BareTagElement(name: string, attrs: seq<Attribute>)
    requires LastValue(attrs, "class").None? && LastValue(attrs, "id").None?
    ensures ElementOf(name, attrs) == ElementData(None, {name})
  {
  }

  /** The simplest tag, `<a>`, gives class set {a}, no id, and nothing remains. */
  lemma SimpleOpenTag()
    ensures OpenTagResult("<a>") == Tag("", ElementData(None, {"a"}))
  {
    assert "<a>" == RenderTag("a", []) + "";
    OpenTagSyntaxRoundTrip("a", [], "");
  }

  /** A tag written as `<name class="v" id="i">` gives the element with id `i` and the
      pieces of `v` plus the tag name as classes. */
  lemma OpenTagWithClassesAndId(name: string, v: string, i: string)
    requires ValidIdentifier(name) && '"' !in v && '"' !in i
    ensures OpenTagResult(RenderTag(name, [("class", v), ("id", i)])) ==
            Tag("", ElementData(Some(i), ClassesOf(v) + {name}))
  {
    var attrs := [("class", v), ("id", i)];
    ClassAndIdValid(attrs, v, i);
    OpenTagSyntaxRoundTrip(name, attrs, "");
    AppendEmpty(RenderTag(name, attrs));
    ClassAndIdElement(name, attrs, v, i);
  }

  lemma AppendEmpty<T>(xs: seq<T>)
    ensures xs + [] == xs
  {
  }

  lemma ClassAndIdValid(attrs: seq<Attribute>, v: string, i: string)
    requires attrs == [("class", v), ("id", i)] && '"' !in v && '"' !in i
    ensures AllValid(attrs)
  {
    assert ValidIdentifier("class") && ValidIdentifier("id");
  }

  lemma ClassAndIdElement(name: string, attrs: seq<Attribute>, v: string, i: string)
    requires attrs == [("class", v), ("id", i)]
    ensures !HasStyle(attrs)
    ensures ElementOf(name, attrs) == ElementData(Some(i), ClassesOf(v) + {name})
  {
    assert "id" != "class" && "id" != "style" && "class" != "style";
    assert attrs[..1] == [("class", v)];
    assert [("class", v)][..0] == [];
    assert LastValue(attrs, "class") == LastValue([("class", v)], "class") == Some(v);
    assert LastValue(attrs, "style") == LastValue([("class", v)], "style") == LastValue([], "style");
  }
}
