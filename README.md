# text_tree in Dafny

A verified model of the core of `text_tree`, a toy browser engine that draws a
document as text in a character grid. It follows the engine's pipeline:

1. **Content tree.** Nodes are text or elements with an id and a class set
   (`ContentTree`). An open-tag parser reads `<name attr="value" ...>` into element
   data (`MarkupParse`).
2. **Stylesheet.** A parser reads rules `selector { name: value; ... }`
   (`StyleParse`). A selector is simple: `.class` or `#id`. Values are typed by
   property name: lengths, `auto` margins, border styles and `display` kinds.
   `Style` models selector matching and specificity.
3. **Style tree.** The cascade sorts the matching rules by specificity (stably)
   and lets later declarations overwrite earlier ones (`StyleTree`).
4. **Layout.** A tree of block, inline and anonymous boxes is built from the style
   tree (`LayoutTree`). Box geometry follows the CSS box model: margin, border,
   padding and content boxes (`BoxModel`). Block width resolution, block stacking
   and inline runs are in `Layout`.
5. **Display.** Each box becomes a filled rectangle plus a border (`Display`). A
   `DebugCanvas` class paints these commands into a two-dimensional `char` array.

Modelling choices:

- Parsers are pure functions from `string` to `Parsed(rest, value) | Failed`. They
  follow the semantics of the nom combinators the code uses. `many0` stops at the
  first failure and gives back what that attempt consumed. `separated_list0`
  backtracks over a trailing separator. Every parser that must read something is
  proved to consume input when it succeeds; the `many0` loops (`Declarations`,
  `Rules`) may read nothing and are only proved never to grow their input. Each
  parser has a round-trip lemma: rendering a value and parsing it back gives the
  value and the untouched rest.
- Where the source works step by step, the model does too:
  - the attribute loop of `open_tag`;
  - the declaration loop of `specified_values`;
  - building the layout tree;
  - the layout passes;
  - building the display list;
  - painting.
  
  Each of these is a `method` with loop invariants. It is proved equal to a
  specification function, and the properties are proved about that function.
- Layout boxes are values. Each `&mut self` pass takes a box and returns the
  updated box.
- Integers are mathematical integers. `i32` division by two in the margin split is
  written out as truncation toward zero (`Layout.TruncHalf`). Decimal parsing keeps
  the `i32` range check of `str::parse`.

## Model

| member | source | states |
|---|---|---|
| Wrappers.Option.UnwrapOr | src/style_tree.rs:62-68 | the fallback is taken exactly when the option is empty |
| Nom.Span | src/content_tree/parse.rs:10-16 | a run length never exceeds the input |
| Nom.SpanIsMaximalRun | src/content_tree/parse.rs:10-16 | the run is the longest prefix satisfying the predicate: all of it satisfies it, and the next character does not |
| Nom.SpanStopsAt | src/style/parse.rs:185-191 | a run over `u` that is followed by a non-matching character has the length of `u` |
| Nom.IndexOfFindsFirst | src/content_tree/parse.rs:18-21 | the search fails exactly when the character is absent, and otherwise finds its first occurrence |
| Nom.Tag | src/style/parse.rs:113-125 | `tag(k)` succeeds exactly when `k` is a prefix, consumes it and returns `k` |
| Nom.Char | src/style/parse.rs:18-36 | `char(c)` succeeds exactly on a leading `c` and consumes one character |
| Nom.Multispace0 | src/style/parse.rs:193-197 | skipping whitespace leaves a suffix of the input |
| Nom.TakeUntil | src/style/parse.rs:90-107 | `take_until(c)` succeeds exactly when `c` occurs, returns the text before the first `c` and stops at it |
| ContentTree.FromString | src/content_tree/mod.rs:23-30 | a string becomes a childless text node whose text is that string |
| ContentTree.NewElement | src/content_tree/mod.rs:33-38 | an element node keeps the children, id and classes it was given and has no text |
| ContentTree.TextOf | src/content_tree/mod.rs:40-45 | text is returned exactly for text nodes |
| ContentTree.ClassOrderIrrelevant | src/content_tree/mod.rs:16-21 | classes are a set: listing them in another order or with repeats builds the same element |
| ContentTree.ElementEquality | src/content_tree/mod.rs:33-38 | two element nodes are equal exactly when their children, ids and class sets are |
| MarkupParse.Identifier | src/content_tree/parse.rs:10-16 | an identifier parse consumes input |
| MarkupParse.IdentifierIsMaximal | src/content_tree/parse.rs:10-16 | it succeeds exactly when the input starts with an ASCII letter, `_` or `:`, and then takes the longest run of ASCII letters, digits, `_`, `:` and `.` |
| MarkupParse.IdentifierStopsAt | src/content_tree/parse.rs:10-16 | a valid name followed by a non-identifier character reads back as that name |
| MarkupParse.AttributeValue | src/content_tree/parse.rs:18-21 | a `="..."` parse consumes input |
| MarkupParse.AttributeValueIsQuoted | src/content_tree/parse.rs:18-21 | a parsed value contains no `"`, and the input was `="`, the value, `"` and the rest |
| MarkupParse.AttributeValueRoundTrip | src/content_tree/parse.rs:18-21 | `="v"` followed by anything reads back as `v` when `v` has no quote |
| MarkupParse.AnyAttribute | src/content_tree/parse.rs:23-26 | an attribute parse consumes input |
| MarkupParse.AnyAttributeReadsBack | src/content_tree/parse.rs:23-26 | a rendered `name="value"` attribute reads back as the pair |
| MarkupParse.Multispace1 | src/content_tree/parse.rs:35 | succeeds only by consuming at least one whitespace character; Multispace1LeavesSuffix states that the rest is a suffix of the input |
| MarkupParse.AttributeList | src/content_tree/parse.rs:36 | `separated_list0(multispace1, any_attribute)` never fails and never grows its input; MoreAttributesReadBack states what it reads |
| MarkupParse.MoreAttributesReadBack | src/content_tree/parse.rs:30-40 | a space-separated attribute list before `>` reads back as the list, in order |
| MarkupParse.AttributesAfterName | src/content_tree/parse.rs:34-37 | the optional space-led attribute list never fails and never grows its input; AttributesAfterNameReadBack states what it reads |
| MarkupParse.AttributesAfterNameReadBack | src/content_tree/parse.rs:30-40 | the optional attribute list after the tag name reads back as the list, including the empty list |
| MarkupParse.OpenTagSyntax | src/content_tree/parse.rs:30-40 | an open-tag parse consumes input |
| MarkupParse.OpenTagLeavesTextAfterGt | src/content_tree/parse.rs:30-40 | after a successful parse the input is `<`, the tag text, `>` and the rest |
| MarkupParse.OpenTagSyntaxRoundTrip | src/content_tree/parse.rs:30-40 | a rendered tag `<name a="v" ...>` followed by any text parses back to its name and attributes |
| MarkupParse.Split | src/content_tree/parse.rs:46-48 | splitting on a separator gives at least one piece, and no piece contains the separator |
| MarkupParse.JoinSplit | src/content_tree/parse.rs:46-48 | joining the pieces with the separator gives back the original string |
| MarkupParse.ClassesOf | src/content_tree/parse.rs:46-48 | the class set is exactly the set of space-separated pieces, empty pieces included |
| MarkupParse.ElementOf | src/content_tree/parse.rs:42-58 | the tag name is always among the classes, and the id is the last `id` attribute's value |
| MarkupParse.OpenTagResult | src/content_tree/parse.rs:28-60 | the tag fails exactly when its syntax does not parse |
| MarkupParse.OpenTag | src/content_tree/parse.rs:28-60 | the attribute loop computes the open-tag result: error, unsupported `style`, or element and rest |
| MarkupParse.ResolveAttributes | src/content_tree/parse.rs:42-58 | the loop yields no element when a `style` attribute is present, and otherwise the element built from the last `class` and `id` values |
| MarkupParse.IgnoredAttribute | src/content_tree/parse.rs:53-55 | attributes other than `class`, `id` and `style` change nothing |
| MarkupParse.LaterClassReplaces | src/content_tree/parse.rs:46-48 | a later `class` attribute replaces the earlier classes; it does not add to them |
| MarkupParse.BareTagElement | src/content_tree/parse.rs:42-58 | without `class` or `id`, the element has no id and its only class is its tag name |
| MarkupParse.SimpleOpenTag | src/content_tree/parse.rs:28-60 | `<a>` yields element `a` with class `a` and empty rest |
| MarkupParse.OpenTagWithClassesAndId | src/content_tree/parse.rs:28-60 | `<n class="v" id="i">` yields id `i` and the classes of `v` plus `n` |
| Style.Size | src/style/mod.rs:48-55 | a border is 1 character wide unless it is `None`, which is 0 |
| Style.ToChars | src/style/mod.rs:68-77 | only an absolute length has a character count; every other value counts 0 |
| Style.BorderValueHasNoLength | src/style/mod.rs:68-77 | a border value counts 0 characters, because the wildcard arm comes first, so it differs from the border's size |
| Style.Less | src/style/mod.rs:79 | the order of specificity triples, compared component by component as Rust orders tuples; no contract of its own, LessIsStrictTotalOrder proves it a strict total order and TupleComparison checks the example of src/style/mod.rs:147-152 |
| Style.LessIsStrictTotalOrder | src/style/mod.rs:79 | the lexicographic order on specificity triples is a strict total order |
| Style.TupleComparison | src/style/mod.rs:147-152 | `(1,1,3) < (2,1,2)` and not the reverse |
| Style.SpecificityOf | src/style/mod.rs:81-88 | the first component is 1 exactly when there is an id, the second is the class count, the third is 0 |
| Style.IdOutranksClasses | src/style/mod.rs:81-88 | a selector with an id outranks any selector without one |
| Style.MoreClassesOutrank | src/style/mod.rs:81-88 | without ids, more classes means higher specificity |
| Style.SomeClassMissingIff | src/style/mod.rs:90-108 | the class check fails exactly when some selector class is missing from the element |
| Style.Matches | src/style/mod.rs:90-108 | a selector matches when its id, if it has one, is the element's and none of its classes is missing; no contract of its own, MatchesIff states both directions |
| Style.MatchesIff | src/style/mod.rs:90-108 | a selector matches exactly when its id (if any) equals the element's id and all its classes are the element's |
| Style.MatchesDependsOnClassSet | src/style/mod.rs:90-108 | matching depends only on the set of selector classes |
| Style.FirstMatch | src/style/mod.rs:113-120 | the found selector matches and no earlier one does; none found means none matches |
| Style.MatchRule | src/style/mod.rs:113-120 | a rule matches exactly when one of its selectors does, and its specificity is that of the first matching selector |
| Style.MatchingRules | src/style/mod.rs:122-129 | every returned pair is a rule of the sheet paired with its match result |
| Style.MatchingRulesComplete | src/style/mod.rs:122-129 | every matching rule is returned |
| Style.MatchingRulesAppend | src/style/mod.rs:122-129 | the rules are filtered in sheet order |
| Style.MatchingRulesSingle | src/style/mod.rs:122-129 | a one-rule sheet yields that rule exactly when it matches |
| StyleParse.Identifier | src/style/parse.rs:185-191 | an identifier parse consumes input |
| StyleParse.IdentifierIsMaximal | src/style/parse.rs:185-191 | it succeeds exactly when the input starts with an ASCII letter, and then takes the longest run of ASCII letters, digits and `-` |
| StyleParse.IdentifierStopsAt | src/style/parse.rs:185-191 | a valid identifier followed by a non-identifier character reads back |
| StyleParse.ClassSelector | src/style/parse.rs:165-173 | a class selector parse consumes input |
| StyleParse.IdSelector | src/style/parse.rs:175-183 | an id selector parse consumes input |
| StyleParse.AnySelector | src/style/parse.rs:161-163 | a selector parse consumes input |
| StyleParse.AnySelectorShape | src/style/parse.rs:161-183 | a parsed selector is either one id with no classes or one class with no id |
| StyleParse.ClassSelectorRoundTrip | src/style/parse.rs:165-173 | `.c` reads back as the one-class selector `c` |
| StyleParse.IdSelectorRoundTrip | src/style/parse.rs:175-183 | `#i` reads back as the id selector `i` |
| StyleParse.AnySelectorRoundTrip | src/style/parse.rs:161-183 | every simple selector's text reads back as that selector |
| StyleParse.ParseI32 | src/style/parse.rs:131-142 | a converted number is within the `i32` range, and text with `_` never converts |
| StyleParse.Decimal | src/style/parse.rs:131-142 | a number parse consumes input |
| StyleParse.DigitsOfValue | src/style/parse.rs:131-142 | the decimal digits of `n` denote `n` |
| StyleParse.DecimalRoundTrip | src/style/parse.rs:131-142 | the text of an integer reads back as that integer exactly when it is in the `i32` range, and otherwise fails |
| StyleParse.ParseI32Of | src/style/parse.rs:131-142 | integer conversion of an integer's text succeeds exactly in the `i32` range |
| StyleParse.DecimalStopsAtNonDigit | src/style/parse.rs:131-142 | a number parse stops at a character that is neither a digit nor `_` |
| StyleParse.AbsLen | src/style/parse.rs:127-129 | a length parse consumes input |
| StyleParse.Margin | src/style/parse.rs:109-111 | a margin consumes input and is either an absolute length or `Value::Auto` read from a leading `auto` |
| StyleParse.BorderStyle | src/style/parse.rs:144-157 | a border consumes input and is the border style whose keyword the input starts with |
| StyleParse.DisplayStyle | src/style/parse.rs:113-125 | a display value consumes input and is the display kind whose keyword the input starts with |
| StyleParse.BorderStyleRoundTrip | src/style/parse.rs:144-157 | each of `none`, `light`, `heavy`, `double`, followed by any text, reads back as its border style with that text left |
| StyleParse.DisplayStyleRoundTrip | src/style/parse.rs:113-125 | each of `inline`, `block`, `none`, followed by any text, reads back as its display kind with that text left |
| StyleParse.MarginAutoRoundTrip | src/style/parse.rs:109-111 | `auto` followed by any text is `Value::Auto`, since it is no length |
| StyleParse.MarginLengthRoundTrip | src/style/parse.rs:109-111 | an integer followed by a non-digit is a margin of that length inside the i32 range and no margin outside it |
| StyleParse.ParseValueStable | src/style/parse.rs:70-88 | a typed value parser's result does not depend on what follows the `;` |
| StyleParse.WholeValue | src/style/parse.rs:70-88 | a typed value is accepted exactly when its parser consumes the whole text before `;` |
| StyleParse.NamedDecl | src/style/parse.rs:70-88 | a typed declaration consumes input and carries the property name it was asked for |
| StyleParse.NamedDeclOther | src/style/parse.rs:70-88 | a typed declaration parser rejects a declaration of another property |
| StyleParse.UnnamedDecl | src/style/parse.rs:90-107 | the fallback declaration consumes input and yields a keyword |
| StyleParse.UnnamedDeclReads | src/style/parse.rs:90-107 | the fallback reads `name: v;` as keyword `v` |
| StyleParse.AnyDecl | src/style/parse.rs:39-68 | a declaration parse consumes input |
| StyleParse.KindIn | src/style/parse.rs:39-68 | the property table gives a kind exactly for the names it lists |
| StyleParse.KindOfEntry | src/style/parse.rs:39-68 | each listed property maps to its value kind |
| StyleParse.PropertiesAreDistinct | src/style/parse.rs:39-68 | no property appears twice in the table |
| StyleParse.Route | src/style/parse.rs:39-68 | an unknown property's value is a keyword, and a known property's value is the typed value if it covers the whole text, otherwise a keyword |
| StyleParse.PropertiesRouteByName | src/style/parse.rs:39-68 | trying the typed parsers in table order routes by property name |
| StyleParse.DeclarationRouting | src/style/parse.rs:39-68 | any well-formed `name: v;` reads back as that name with its routed value |
| StyleParse.AnyDeclNeedsLetter | src/style/parse.rs:39-68 | a declaration must start with a letter |
| StyleParse.KindsOfExamples | src/style/parse.rs:39-68 | `width` and `padding-left` are lengths, `margin` is a margin, `border-left` a border, `display` a display |
| StyleParse.LengthValues | src/style/parse.rs:127-142 | `12` and `-3` are lengths |
| StyleParse.KeywordValues | src/style/parse.rs:109-157 | `auto` is no length but is a margin; `double` is a border, `none` a display kind, `flex` none |
| StyleParse.AutoExamples | src/style/parse.rs:39-111 | `width: auto` stays the keyword `auto`, and `margin: auto` becomes the `Auto` value |
| StyleParse.LengthExamples | src/style/parse.rs:39-68 | `width: 12` and `padding-left: -3` are absolute lengths |
| StyleParse.BorderExample | src/style/parse.rs:144-157 | `border-left: double` is a double border |
| StyleParse.DisplayExamples | src/style/parse.rs:113-125 | `display: none` is display none, and `display: flex` falls back to a keyword |
| StyleParse.UnknownPropertyExample | src/style/parse.rs:90-107 | an unknown property keeps its text as a keyword |
| StyleParse.UnderscoreIsNoLength | src/style/parse.rs:131-142 | `1_000` is recognised as digits but is no `i32`, so it falls back to a keyword |
| StyleParse.SkipWsDecl | src/style/parse.rs:193-197 | a whitespace-skipping declaration parse consumes input |
| StyleParse.Declarations | src/style/parse.rs:25 | `many0` over whitespace-skipping declarations never fails and never grows its input; DeclarationsReadBack states what it reads |
| StyleParse.DeclarationsReadBack | src/style/parse.rs:18-36 | a declaration list rendered with separating spaces reads back as the routed declarations |
| StyleParse.ParseRule | src/style/parse.rs:18-36 | a rule consumes input and has exactly one selector |
| StyleParse.RuleReadBack | src/style/parse.rs:18-36 | `sel {decls}` reads back as the rule with that selector and the routed declarations |
| StyleParse.EmptyRule | src/style/parse.rs:18-36 | `sel {}` reads back as a rule with no declarations |
| StyleParse.SpacedEmptyRuleFails | src/style/parse.rs:18-36 | `sel { }` fails: the space before `}` is given back and the closing brace is not found |
| StyleParse.BareWordRuleFails | src/style/parse.rs:18-68 | a declaration without a colon makes the rule fail |
| StyleParse.BareWordStylesheetFails | src/style/parse.rs:12-16 | `.x { y }` is no stylesheet |
| StyleParse.ParseRuleNeedsSelector | src/style/parse.rs:18-36 | a rule must start with `.` or `#` |
| StyleParse.WhitespaceIsNoStylesheet | src/style/parse.rs:12-16 | a stylesheet needs at least one rule |
| StyleParse.SkipWsRule | src/style/parse.rs:193-197 | a whitespace-skipping rule parse consumes input |
| StyleParse.Rules | src/style/parse.rs:13 | the repetition of whitespace-skipping rules never fails and never grows its input; ParseStylesheet demands at least one rule and RulesReadBack states what it reads |
| StyleParse.RulesReadBack | src/style/parse.rs:12-16 | newline-separated rules read back in order |
| StyleParse.ParseStylesheet | src/style/parse.rs:12-16 | a stylesheet has at least one rule and consumes input |
| StyleParse.FromStr | src/style/mod.rs:131-140 | conversion succeeds exactly when the stylesheet parser does, and discards the unparsed tail |
| StyleParse.StylesheetReadBack | src/style/mod.rs:131-140 | the rendered text of a non-empty list of rules converts back to those rules |
| StyleTree.LastDeclared | src/style_tree.rs:20-24 | a value exists exactly when the declarations set the property, and it is the last such declaration's value |
| StyleTree.ApplyDeclsLookup | src/style_tree.rs:20-24 | after inserting a rule's declarations, a property holds its last declared value, or its earlier value if undeclared |
| StyleTree.LastDeclaring | src/style_tree.rs:20-24 | the last rule declaring a property is one of the rules, and none found means no rule declares it |
| StyleTree.ApplyRulesLookup | src/style_tree.rs:20-24 | applying rules in order leaves each property with the value from the last rule declaring it |
| StyleTree.Insert | src/style_tree.rs:19 | inserting adds the element to the multiset |
| StyleTree.InsertSorted | src/style_tree.rs:19 | inserting into a sorted sequence keeps it sorted |
| StyleTree.Sort | src/style_tree.rs:19 | sorting permutes the matched rules |
| StyleTree.SortIsSorted | src/style_tree.rs:19 | the result is ordered by specificity |
| StyleTree.SortIsStable | src/style_tree.rs:19 | rules of equal specificity keep their sheet order, as `sort_by` guarantees |
| StyleTree.BestIndex | src/style_tree.rs:15-27 | the winning rule index is in range |
| StyleTree.BestIndexIsWinner | src/style_tree.rs:15-27 | a winner exists exactly when some matched rule declares the property; it has maximal specificity and is the latest among ties |
| StyleTree.SortedLastIsBest | src/style_tree.rs:15-27 | after the stable sort, the last rule declaring a property is the winner |
| StyleTree.Cascade | src/style_tree.rs:15-27 | the declarations of the matched rules, sorted by specificity, inserted in order into an empty map; no contract of its own, CascadeWinner and WinnerDecides state which value each property gets |
| StyleTree.CascadeWinner | src/style_tree.rs:15-27 | a property is specified exactly when a matched rule declares it, and its value comes from the most specific, latest such rule |
| StyleTree.ApplyDecls | src/style_tree.rs:21-23 | the map after inserting one rule's declarations in order; no contract of its own, ApplyDeclsLookup states that each property holds its last declared value or keeps its earlier one |
| StyleTree.InsertDeclarations | src/style_tree.rs:21-23 | the loop over one rule's declarations builds the declaration-applied map |
| StyleTree.SpecifiedValues | src/style_tree.rs:15-27 | the loop computes the cascade of the element's matching rules |
| StyleTree.ValuesFor | src/style_tree.rs:29-42 | text nodes have no specified values |
| StyleTree.BuildStyleTree | src/style_tree.rs:29-42 | the styled node wraps the content node, has one child per content child, and its values are the cascade |
| StyleTree.StyleTreeMirrors | src/style_tree.rs:29-42 | the style tree has the content tree's shape at every level, and each node carries its own cascade |
| StyleTree.ValueOf | src/style_tree.rs:58-60 | a value is returned exactly for specified properties |
| StyleTree.DisplayOf | src/style_tree.rs:50-56 | a specified `display` value gives the kind, and anything else gives inline |
| StyleTree.Lookup | src/style_tree.rs:62-68 | the property is tried first, then the fallback property, then the default |
| StyleTree.LookupIsValueFallback | src/style_tree.rs:62-68 | `lookup` is two `value` calls chained with fallbacks |
| StyleTree.TextIsInline | src/style_tree.rs:29-56 | a text node is always inline |
| StyleTree.DisplayNoneFromCascade | src/style_tree.rs:15-56 | a styled node built from a content node reports `display: none` exactly when the node is an element and the rule that wins `display` in its cascade declares `none` last |
| StyleTree.WinnerDecides | src/style_tree.rs:15-27 | the cascade gives a property a value exactly when the winning rule declares that value last |
| StyleTree.WinnerUnique | src/style_tree.rs:15-27 | at most one rule wins a property |
| BoxModel.Sizes | src/layout.rs:36-45 | each border edge is 0 or 1 wide, 0 exactly when it is `None` |
| BoxModel.ExpandedBy | src/layout.rs:67-74 | expanding moves the origin out by the left and top sizes and the far edges out by the right and bottom sizes |
| BoxModel.ContractedBy | src/layout.rs:76-84 | contracting moves the origin in by the left and top sizes and never gives a negative size |
| BoxModel.ContractUndoesExpand | src/layout.rs:67-84 | contracting an expanded rectangle gives it back |
| BoxModel.ExpandUndoesContract | src/layout.rs:67-84 | expanding a contracted rectangle gives it back when it was large enough |
| BoxModel.ContractClamps | src/layout.rs:76-84 | a rectangle narrower than the edges contracts to width 0, and expanding does not restore it |
| BoxModel.MarginBox | src/layout.rs:49-51 | the margin box starts the left and top margins before the border box and adds both margins to its size |
| BoxModel.PaddingBox | src/layout.rs:57-59 | the padding box starts past the left and top borders and takes both borders off the size, never below zero |
| BoxModel.ContentBox | src/layout.rs:61-63 | the content box starts past the left and top padding of the padding box and takes both paddings off its size, never below zero |
| BoxModel.BoxWidths | src/layout.rs:49-63 | margin box is margins plus border box; padding and content boxes subtract borders and padding, clamped at 0 |
| BoxModel.ContentOrigin | src/layout.rs:49-63 | the content box starts inside the left and top border and padding |
| BoxModel.BoxesNest | src/layout.rs:49-63 | with room and non-negative edges, content lies in padding, padding in border, border in margin box |
| LayoutTree.NewBox | src/layout.rs:101-109 | a new box has zero dimensions, the given type and no children |
| LayoutTree.ExpandPush | src/layout.rs:142-159 | flattening anonymous boxes: a pushed box adds itself, or its children if anonymous |
| LayoutTree.ExpandReplaceLast | src/layout.rs:142-159 | adding a child to a trailing anonymous box adds it to the flattened children |
| LayoutTree.PushInline | src/layout.rs:142-159 | an inline child goes into the block's trailing anonymous box, or a new one; non-blocks take it directly |
| LayoutTree.BoxTypeFor | src/layout.rs:111-130 | inline nodes make inline boxes, block nodes block boxes |
| LayoutTree.BuildUpTo | src/layout.rs:111-130 | a partially built box has its node's box type and zero dimensions |
| LayoutTree.BuildSpec | src/layout.rs:111-130 | the built box has its node's box type and zero dimensions |
| LayoutTree.BuildLayoutTree | src/layout.rs:111-130 | the child loop builds the specified layout tree |
| LayoutTree.BuildUpToKeepsOrder | src/layout.rs:111-130 | flattening anonymous wrappers gives the boxes of the visible children, in document order |
| LayoutTree.BuildKeepsOrder | src/layout.rs:111-130 | the whole tree keeps the visible children in order, dropping `display: none` ones |
| LayoutTree.AppendWellFormed | src/layout.rs:111-130 | appending a well-formed child that fits keeps the box well formed |
| LayoutTree.ReplaceLastWellFormed | src/layout.rs:142-159 | replacing the last child by a well-formed one that fits keeps the box well formed |
| LayoutTree.AnonymousExtendWellFormed | src/layout.rs:142-159 | an anonymous box with an extra inline child stays well formed |
| LayoutTree.BlockFitReplaceLast | src/layout.rs:142-159 | a block may swap its trailing anonymous box for another anonymous box |
| LayoutTree.PushInlineWellFormed | src/layout.rs:142-159 | adding an inline child keeps the box well formed |
| LayoutTree.BuildUpToWellFormed | src/layout.rs:111-130 | every partially built box is well formed |
| LayoutTree.BuildWellFormed | src/layout.rs:111-130 | in the built tree, anonymous boxes hold only inline boxes, and blocks hold only blocks and anonymous boxes |
| Layout.TruncHalf | src/layout.rs:276-282 | halving truncates toward zero, as `i32` division does |
| Layout.BorderOf | src/layout.rs:205-218 | a border value gives its style, and anything else gives no border (the same match is used for the top and bottom borders at src/layout.rs:315-328) |
| Layout.ResolveWidths | src/layout.rs:193-294 | margins and width always sum to the containing block's content width |
| Layout.FixedWidthKept | src/layout.rs:236-283 | an explicit width is used as the width |
| Layout.AutoWidthFills | src/layout.rs:236-283 | an `auto` width takes the remaining room; if there is none it is 0 and the right margin absorbs the overflow |
| Layout.AutoMarginsCenter | src/layout.rs:276-282 | two `auto` margins split the room, the left getting the truncated half |
| Layout.AutoMarginTakesRoom | src/layout.rs:236-283 | a single `auto` margin takes the remaining room |
| Layout.OverflowDropsAutoMargins | src/layout.rs:228-245 | on overflow the left margin keeps its length (an `auto` margin counts 0), and the right margin shrinks below its own value to fit |
| Layout.ParsedAutoMarginIsZero | src/layout.rs:193-294 | the `Auto` value the parser gives `margin: auto` acts as a zero margin here, not as `auto` |
| Layout.BlockWidthDims | src/layout.rs:193-294 | the margins and the border-box width add up to the containing block's content width, and the vertical fields and position are kept |
| Layout.CalculateBlockWidth | src/layout.rs:193-294 | the method computes the resolved widths and margins |
| Layout.BlockPositionDims | src/layout.rs:296-345 | the block is placed at the containing block's content left, below its content, with height of its vertical padding |
| Layout.CalculateBlockPosition | src/layout.rs:296-345 | the method computes that placement |
| Layout.InlinePositionDims | src/layout.rs:371-394 | an inline box is 1 line tall, placed at the containing block's content left and below its content |
| Layout.CalculateInlinePosition | src/layout.rs:371-394 | the method computes that placement |
| Layout.LayoutSpec | src/layout.rs:161-175 | layout keeps the box type and the number of children |
| Layout.BlockSpec | src/layout.rs:177-191 | block layout keeps the box type and the number of children |
| Layout.InlineSpec | src/layout.rs:364-369 | inline layout keeps the box type and the number of children; InlineSize states its size and place |
| Layout.BlockRun | src/layout.rs:347-354 | the first `i` children are laid out |
| Layout.InlineRun | src/layout.rs:396-407 | the first `i` children are laid out |
| Layout.ExplicitHeight | src/layout.rs:356-362 | an explicit `height` length sets the height, and nothing else changes |
| Layout.TextWidth | src/layout.rs:409-415 | a text node widens its box by its length; nothing else changes |
| Layout.Layout | src/layout.rs:161-175 | the method lays out a box as the specification does |
| Layout.LayoutBlock | src/layout.rs:177-191 | the method computes block layout |
| Layout.BlockChildren | src/layout.rs:347-354 | the children laid out in turn, the height grown by each one's margin box; keeps the box type and the number of children, and BlockRunExtent and BlockChildTop state the height and the places |
| Layout.InlineChildren | src/layout.rs:396-407 | the children laid out in turn, each to the right of the previous, the width grown by each one's margin box; also the anonymous branch of src/layout.rs:163-167; keeps the box type and the number of children, and InlineRunExtent and InlineChildLeft state the width and the places |
| Layout.LayoutBlockChildren | src/layout.rs:347-354 | the loop lays out each child below the previous ones and grows the height |
| Layout.CalculateBlockHeight | src/layout.rs:356-362 | the method computes the explicit height rule |
| Layout.LayoutInline | src/layout.rs:364-369 | the method computes inline layout |
| Layout.LayoutInlineChildren | src/layout.rs:396-407 | the loop lays out each child right of the previous ones and grows the width |
| Layout.CalculateInlineWidth | src/layout.rs:409-415 | the method computes the text width rule |
| Layout.BlockRunExtent | src/layout.rs:347-354 | the accumulated height is the sum of the children's margin-box heights |
| Layout.InlineRunExtent | src/layout.rs:396-407 | the accumulated width is the sum of the children's margin-box widths |
| Layout.LaidOutChildren | src/layout.rs:161-191 | children come from the runs; position, margin, border and padding are set before the children |
| Layout.LeftEdge | src/layout.rs:296-394 | a block or inline box's margin box starts at the containing block's content left edge |
| Layout.BlockPlacement | src/layout.rs:193-345 | a block's margin box spans the containing content width and starts right below its content |
| Layout.BlockHeight | src/layout.rs:347-362 | a block's height is its explicit length, or vertical padding plus the children's heights |
| Layout.InlineSize | src/layout.rs:364-415 | an inline box is 1 tall and as wide as its padding, children and text |
| Layout.AnonymousSpan | src/layout.rs:161-175 | an anonymous box takes the containing block's dimensions, widened by its children |
| Layout.BlockChildTop | src/layout.rs:347-354 | the k-th block child of a laid-out block starts below the margin boxes of the earlier children, less the parent's vertical borders, from the top of its content box |
| Layout.BlocksStack | src/layout.rs:347-354 | in `layout_block_children` over a parent whose height so far is its vertical padding and which has no vertical borders, each block child's margin box starts where the previous one's ends |
| Layout.BorderedParentOverlap | src/layout.rs:347-354 | in `layout_block_children` over a parent with a top border and no bottom border, the second block child's margin box starts one line above the end of the first's |
| Layout.InlineChildLeft | src/layout.rs:396-407 | the k-th inline child starts after the widths of the earlier children |
| Layout.InlineChildrenAdjacent | src/layout.rs:396-407 | consecutive inline children touch |
| Layout.InlineChildrenShareLine | src/layout.rs:371-407 | all inline children sit on the same row, below the parent's content |
| Display.Commands | src/display.rs:16-34 | each box gives two commands |
| Display.Preorder | src/display.rs:16-34 | the traversal starts with the box itself |
| Display.Flat | src/display.rs:16-34 | the list has two commands per box |
| Display.FlatAppend | src/display.rs:16-34 | the colour counter carries over from one subtree to the next |
| Display.Render | src/display.rs:16-34 | the commands of a subtree from background number `n`; it has no contract of its own, and RenderIsFlat and DisplayListOrder state what it holds |
| Display.RenderIsFlat | src/display.rs:16-34 | rendering lists the boxes' commands in pre-order |
| Display.FlatIndex | src/display.rs:16-34 | entry 2k is the k-th box's filled content box in colour k, and entry 2k+1 is its border |
| Display.DisplayListOrder | src/display.rs:10-34 | the display list has two entries per box: the fill in colour k mod 16, then the border |
| Display.RenderLayoutBox | src/display.rs:16-34 | the method appends the subtree's commands and advances the counter by its box count |
| Display.BuildDisplayList | src/display.rs:10-14 | the method builds the rendering of the root from colour 0 |
| Display.Clamp | src/display.rs:66-84 | a coordinate is kept in range, clamped to 0 or the last index otherwise |
| Display.FillMissesLastColumnAndRow | src/display.rs:88-98 | a fill never paints the last column or row |
| Display.BorderSkipsCorners | src/display.rs:134-157 | the border strokes never write the corner cells |
| Display.FillInsideCanvas | src/display.rs:88-98 | a fill inside the canvas paints exactly its rectangle |
| Display.CellAfterAll | src/display.rs:60-64 | a cell after painting the commands in order, each over the ones before; no contract of its own, LastWriterWins states that the last command writing the cell decides it |
| Display.LastWriterWins | src/display.rs:60-64 | a cell shows the last command that writes it |
| Display.DebugCanvas.constructor | src/display.rs:43-51 | a new canvas of the given size is all blank |
| Display.DebugCanvas.FillRect | src/display.rs:86-160 | the cells of the range get the character, and all others are unchanged |
| Display.CellAfter | src/display.rs:86-160 | a command leaves a cell as it was or writes its own character there: its background for a fill, a dash or a vertical bar for a border |
| Display.FillPaintable | src/display.rs:88-97 | on a canvas with at least one cell a background never indexes out of range |
| Display.EmptyCanvasPaintable | src/display.rs:66-84 | on a canvas with no cells a command of non-negative size writes nothing and is paintable, and a background of negative size is not |
| Display.DebugCanvas.PaintItem | src/display.rs:86-160 | every cell is as painting one command over the old canvas describes |
| Display.DebugCanvas.Paint | src/display.rs:60-64 | every cell is as painting the commands in order describes |

## Left out

- I/O is not modelled: `println!`, tracing, the canvas's `print`/`Display` output, reading files. The `lib.rs` document driver and the `examples/` programs are not part of this model.
- The full document parser (text nodes, closing tags, nesting) in `src/content_tree/parse.rs` beyond `open_tag` and its helpers is not part of this model.
- The older top-level `src/content_tree.rs` and `src/style.rs` files are not part of this model; the modules under `src/content_tree/` and `src/style/` are modelled.
- Parse errors are a plain `Failed`; nom's `VerboseError` contexts and messages are not modelled.
- MarkupParse.OpenTag: the `todo!()` panic on a `style` attribute is modelled as an `Unsupported` result.
- StyleTree.Sort: the standard library's stable `sort_by` is modelled as a stable insertion sort. Only its specified behaviour is relied on: sortedness, permutation, stability.
- Layout boxes are values: each `&mut self` pass returns the updated box, so in-place update and aliasing of `LayoutBox` are not modelled.
- Integer widths: `i32` and `usize` overflow is not modelled, except the `i32` range check when parsing decimals. Lengths and coordinates are unbounded integers.
- LayoutTree.BuildLayoutTree: requires that the root is not `display: none`. The source panics on such a root.
- Display.DebugCanvas.PaintItem: requires `Paintable`: the background's loop, or each of the border's four stroke loops, either writes nothing or stays on the canvas (`InBounds`). This is exactly the condition under which the source does not index out of range and panic: border strokes are written at `y0 - top`, `y1 + bottom`, `x0 - left` and `x1 + right` without clamping (src/display.rs:135-157), and on a canvas with no rows or no columns `clamp_x`/`clamp_y` give -1 (src/display.rs:66-84), so a background of negative size or a stroke over a non-empty range can index row or column -1. The panicking inputs are not modelled; on a canvas with at least one cell every background is paintable (`FillPaintable`), and on a canvas with no cells every command of non-negative size is (`EmptyCanvasPaintable`).
- Display.DebugCanvas.Paint: requires every command to be `Paintable`, so the inputs on which the source panics are not modelled, as for PaintItem.
- The display list uses fields `d.content` and `d.border` as edge sizes, which the dimensions type does not have. The model uses the content box (`ContentBox`) and the border widths (`Sizes(d.border)`).
- `DisplayKind` in `src/style/mod.rs:36-40` has no `None` variant, but the parser, the style tree and layout all use `DisplayKind::None`. The model includes it.
- The example test in `src/style/mod.rs:154-280` expects `display` to be the keyword `block` and `margin` the keyword `auto`. The parser code yields `Display(Block)` and `Value::Auto`, and the model follows the code (`StyleParse.DisplayExamples`, `StyleParse.AutoExamples`).
- Display.BorderSkipsCorners and Layout.BorderedParentOverlap state the code's behaviour as written: corners are not painted, and children of a parent with a top border overlap. Both are kept as documented behaviour.
