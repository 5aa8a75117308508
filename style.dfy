/** Stylesheets, selector matching and specificity (src/style/mod.rs). */
module Style {
  import opened Wrappers
  import opened ContentTree

  datatype Stylesheet = Stylesheet(rules: seq<Rule>)

  datatype Rule = Rule(selectors: seq<Selector>, declarations: seq<Declaration>)

  /** A simple selector: an optional id and the classes an element must all carry. */
  datatype Selector = Selector(id: Option<string>, classes: seq<string>)

  datatype Declaration = Declaration(name: string, value: Value)

  datatype Border = None | Light | Heavy | Double

  /** How a node takes part in layout. `None` removes it together with its subtree. */
  datatype DisplayKind = Inline | Block | None

  /** A specified value. Lengths are whole characters. */
  datatype Value =
    | Keyword(word: string)
    | Auto
    | AbsoluteLength(length: int)
    | Border(border: Border)
    | Display(kind: DisplayKind)

  /** `Border::size`: a drawn border is one character thick. */
  function Size(b: Border): (n: int)
    ensures 0 <= n <= 1
    ensures n == 0 <==> b == Border.None
  {
    match b
    case None => 0
    case _ => 1
  }

  /** `Value::to_chars`: the length in characters of a value. The wildcard arm comes before
      the border arm, so a border value has no length either. */
  function ToChars(v: Value): (n: int)
    ensures v.AbsoluteLength? ==> n == v.length
    ensures !v.AbsoluteLength? ==> n == 0
  {
    match v
    case AbsoluteLength(l) => l
    case _ => 0
  }

  /** A border declared as a length source counts 0 characters, even when it is drawn. */
  lemma BorderValueHasNoLength(b: Border)
    ensures ToChars(Value.Border(b)) == 0
    ensures b != Border.None ==> ToChars(Value.Border(b)) != Size(b)
  {
  }

  /** (ids, classes, element names): the third part is always 0 since there are no
      element-name selectors. */
  type Specificity = (nat, nat, nat)

  /** Rust's tuple order: lexicographic. */
  predicate Less(x: Specificity, y: Specificity)
  {
    x.0 < y.0 || (x.0 == y.0 && (x.1 < y.1 || (x.1 == y.1 && x.2 < y.2)))
  }

  predicate LessEq(x: Specificity, y: Specificity)
  {
    Less(x, y) || x == y
  }

  /** The tuple order is a strict total order. */
  lemma LessIsStrictTotalOrder(x: Specificity, y: Specificity, z: Specificity)
    ensures !Less(x, x)
    ensures Less(x, y) && Less(y, z) ==> Less(x, z)
    ensures Less(x, y) || x == y || Less(y, x)
    ensures !(Less(x, y) && Less(y, x))
  {
  }

  /** The comparison the tuple test checks: the first component decides. */
  lemma TupleComparison()
    ensures Less((1, 1, 3), (2, 1, 2))
    ensures !Less((2, 1, 2), (1, 1, 3))
  {
  }

  /** `Selector::specificity`. */
  function SpecificityOf(sel: Selector): (s: Specificity)
    ensures s.0 <= 1 && (s.0 == 1 <==> sel.id.Some?)
    ensures s.1 == |sel.classes| && s.2 == 0
  {
    (if sel.id.Some? then 1 else 0, |sel.classes|, 0)
  }

  /** An id selector outranks any selector without an id, whatever its classes. */
  lemma IdOutranksClasses(withId: Selector, without: Selector)
    requires withId.id.Some? && without.id.None?
    ensures Less(SpecificityOf(without), SpecificityOf(withId))
  {
  }

  /** Among selectors without an id, more classes means more specific. */
  lemma MoreClassesOutrank(a: Selector, b: Selector)
    requires a.id.None? && b.id.None? && |a.classes| < |b.classes|
    ensures Less(SpecificityOf(a), SpecificityOf(b))
  {
  }

  /** `classes.iter().any(|class| !element.classes.contains(class))`. */
  function SomeClassMissing(classes: seq<string>, element: ElementData): (b: bool)
  {
    if classes == [] then false
    else classes[0] !in element.classes || SomeClassMissing(classes[1..], element)
  }

  /** `Selector::matches`: the id test, then the class test, each an `any` over the
      selector's parts. */
  predicate Matches(sel: Selector, element: ElementData)
  {
    if sel.id.Some? && element.id != Some(sel.id.value) then false
    else if SomeClassMissing(sel.classes, element) then false
    else true
  }

  lemma {:induction false} SomeClassMissingIff(classes: seq<string>, element: ElementData)
    ensures SomeClassMissing(classes, element) <==> exists i :: 0 <= i < |classes| && classes[i] !in element.classes
  {
    if classes != [] {
      SomeClassMissingIff(classes[1..], element);
      if SomeClassMissing(classes[1..], element) {
        var i :| 0 <= i < |classes[1..]| && classes[1..][i] !in element.classes;
        assert classes[i + 1] !in element.classes;
      }
      if exists i :: 0 <= i < |classes| && classes[i] !in element.classes {
        var i :| 0 <= i < |classes| && classes[i] !in element.classes;
        if i > 0 {
          assert classes[1..][i - 1] !in element.classes;
        }
      }
    }
  }

  /** A selector matches iff its id, when it has one, is the element's id, and every
      class it names is among the element's classes. */
  lemma MatchesIff(sel: Selector, element: ElementData)
    ensures Matches(sel, element) <==>
              (sel.id.None? || element.id == sel.id) &&
              forall c :: c in sel.classes ==> c in element.classes
  {
    SomeClassMissingIff(sel.classes, element);
    if !SomeClassMissing(sel.classes, element) {
      forall c | c in sel.classes ensures c in element.classes {
        var i :| 0 <= i < |sel.classes| && sel.classes[i] == c;
      }
    }
  }

  /** Class order and repetition in a selector do not matter. */
  lemma MatchesDependsOnClassSet(a: Selector, b: Selector, element: ElementData)
    requires a.id == b.id
    requires forall c :: c in a.classes <==> c in b.classes
    ensures Matches(a, element) <==> Matches(b, element)
  {
    MatchesIff(a, element);
    MatchesIff(b, element);
  }

  /** A matched rule with the specificity of the selector that matched. */
  type MatchedRule = (Specificity, Rule)

  /** Index of the first selector that matches, as `find` returns it. */
  function FirstMatch(selectors: seq<Selector>, element: ElementData): (r: Option<nat>)
    ensures r.Some? ==> r.value < |selectors| && Matches(selectors[r.value], element)
    ensures r.Some? ==> forall j :: 0 <= j < r.value ==> !Matches(selectors[j], element)
    ensures r.None? ==> forall j :: 0 <= j < |selectors| ==> !Matches(selectors[j], element)
  {
    if selectors == [] then Option.None
    else if Matches(selectors[0], element) then Some(0)
    else match FirstMatch(selectors[1..], element)
      case None => Option.None
      case Some(k) => Some(k + 1)
  }

  /** `Rule::match_rule`: the rule with the specificity of its first matching selector. */
  function MatchRule(rule: Rule, element: ElementData): (r: Option<MatchedRule>)
    ensures r.Some? <==> exists i :: 0 <= i < |rule.selectors| && Matches(rule.selectors[i], element)
    ensures r.Some? ==> r.value.1 == rule
    ensures r.Some? ==>
              exists i :: 0 <= i < |rule.selectors| && Matches(rule.selectors[i], element) &&
                (forall j :: 0 <= j < i ==> !Matches(rule.selectors[j], element)) &&
                r.value.0 == SpecificityOf(rule.selectors[i])
  {
    match FirstMatch(rule.selectors, element)
    case None => Option.None
    case Some(i) => Some((SpecificityOf(rule.selectors[i]), rule))
  }

  /** `Stylesheet::matching_rules`: `filter_map` of `match_rule` over the rules. */
  function MatchingRules(rules: seq<Rule>, element: ElementData): (ms: seq<MatchedRule>)
    ensures |ms| <= |rules|
    ensures forall i :: 0 <= i < |ms| ==> ms[i].1 in rules && MatchRule(ms[i].1, element) == Some(ms[i])
  {
    if rules == [] then []
    else
      var tail := MatchingRules(rules[1..], element);
      match MatchRule(rules[0], element)
      case None => tail
      case Some(m) => [m] + tail
  }

  /** Every rule that matches is among the matched rules. */
  lemma {:induction false} MatchingRulesComplete(rules: seq<Rule>, element: ElementData, k: nat)
    requires k < |rules| && MatchRule(rules[k], element).Some?
    ensures MatchRule(rules[k], element).value in MatchingRules(rules, element)
  {
    if k > 0 {
      MatchingRulesComplete(rules[1..], element, k - 1);
    }
  }

  /** `filter_map` keeps stylesheet order: matching two parts of a stylesheet one after
      the other gives the matches of the whole. */
  lemma {:induction false} MatchingRulesAppend(xs: seq<Rule>, ys: seq<Rule>, element: ElementData)
    ensures MatchingRules(xs + ys, element) == MatchingRules(xs, element) + MatchingRules(ys, element)
  {
    if xs == [] {
      assert xs + ys == ys;
    } else {
      assert (xs + ys)[1..] == xs[1..] + ys;
      MatchingRulesAppend(xs[1..], ys, element);
    }
  }

  /** One rule matches alone exactly when `match_rule` says so. */
  lemma MatchingRulesSingle(rule: Rule, element: ElementData)
    ensures MatchingRules([rule], element) ==
              match MatchRule(rule, element) case None => [] case Some(m) => [m]
  {
  }
}
