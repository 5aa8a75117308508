/** The cascade and the style tree (src/style_tree.rs). */
module StyleTree {
  import opened Wrappers
  import opened ContentTree
  import opened Style

  type PropertyMap = map<string, Value>

  /** A content node with the values specified for it, and its children styled the same
      way. The content node is held by value. */
  datatype StyledNode = StyledNode(node: Node, specifiedValues: PropertyMap, children: seq<StyledNode>)

  // ---- declarations, rule by rule ----

  predicate Declares(ds: seq<Declaration>, k: string)
  {
    exists i :: 0 <= i < |ds| && ds[i].name == k
  }

  /** The value of the last declaration named `k`. */
  function LastDeclared(ds: seq<Declaration>, k: string): (r: Option<Value>)
    ensures r.Some? <==> Declares(ds, k)
    ensures r.Some? ==>
              exists i :: 0 <= i < |ds| && ds[i] == Declaration(k, r.value) &&
                forall j :: i < j < |ds| ==> ds[j].name != k
  {
    if ds == [] then Option.None
    else if ds[|ds| - 1].name == k then Some(ds[|ds| - 1].value)
    else
      var r := LastDeclared(ds[..|ds| - 1], k);
      assert Declares(ds, k) ==> Declares(ds[..|ds| - 1], k) by {
        if Declares(ds, k) {
          var i :| 0 <= i < |ds| && ds[i].name == k;
          assert ds[..|ds| - 1][i].name == k;
        }
      }
      assert r.Some? ==> Declares(ds, k) by {
        if r.Some? {
          var i :| 0 <= i < |ds| - 1 && ds[..|ds| - 1][i].name == k;
          assert ds[i].name == k;
        }
      }
      r
  }

  /** The map after inserting the declarations `ds` into `m` one after the other. */
  function ApplyDecls(m: PropertyMap, ds: seq<Declaration>): PropertyMap
  {
    if ds == [] then m
    else ApplyDecls(m, ds[..|ds| - 1])[ds[|ds| - 1].name := ds[|ds| - 1].value]
  }

  /** Inserting overwrites: a declared name maps to its last declaration, and every other
      name keeps its entry. */
  lemma {:induction false} ApplyDeclsLookup(m: PropertyMap, ds: seq<Declaration>, k: string)
    ensures k in ApplyDecls(m, ds) <==> k in m || Declares(ds, k)
    ensures Declares(ds, k) ==> ApplyDecls(m, ds)[k] == LastDeclared(ds, k).value
    ensures !Declares(ds, k) && k in m ==> ApplyDecls(m, ds)[k] == m[k]
  {
    if ds != [] {
      ApplyDeclsLookup(m, ds[..|ds| - 1], k);
      assert LastDeclared(ds[..|ds| - 1], k).Some? == Declares(ds[..|ds| - 1], k);
    }
  }

  /** The rule among `rs` that declares `k` last. */
  function LastDeclaring(rs: seq<MatchedRule>, k: string): (r: Option<MatchedRule>)
    ensures r.Some? ==> r.value in rs && Declares(r.value.1.declarations, k)
    ensures r.None? ==> forall i :: 0 <= i < |rs| ==> !Declares(rs[i].1.declarations, k)
  {
    if rs == [] then Option.None
    else if Declares(rs[|rs| - 1].1.declarations, k) then Some(rs[|rs| - 1])
    else
      var r := LastDeclaring(rs[..|rs| - 1], k);
      assert forall i :: 0 <= i < |rs| - 1 ==> rs[i] == rs[..|rs| - 1][i];
      r
  }

  /** The map after inserting every declaration of the rules `rs`, in order. */
  function ApplyRules(m: PropertyMap, rs: seq<MatchedRule>): PropertyMap
  {
    if rs == [] then m
    else ApplyDecls(ApplyRules(m, rs[..|rs| - 1]), rs[|rs| - 1].1.declarations)
  }

  /** A name declared by some rule maps to its last declaration in the last rule declaring
      it; every other name keeps its entry. */
  lemma {:induction false} ApplyRulesLookup(m: PropertyMap, rs: seq<MatchedRule>, k: string)
    ensures k in ApplyRules(m, rs) <==> k in m || LastDeclaring(rs, k).Some?
    ensures LastDeclaring(rs, k).Some? ==>
              ApplyRules(m, rs)[k] == LastDeclared(LastDeclaring(rs, k).value.1.declarations, k).value
    ensures LastDeclaring(rs, k).None? && k in m ==> ApplyRules(m, rs)[k] == m[k]
  {
    if rs != [] {
      var prev := rs[..|rs| - 1];
      ApplyRulesLookup(m, prev, k);
      ApplyDeclsLookup(ApplyRules(m, prev), rs[|rs| - 1].1.declarations, k);
    }
  }

  // ---- the stable sort by specificity ----

  predicate Sorted(s: seq<MatchedRule>)
  {
    forall i, j :: 0 <= i < j < |s| ==> LessEq(s[i].0, s[j].0)
  }

  /** Insert `x` after every leading element whose specificity does not exceed its own. */
  function Insert(s: seq<MatchedRule>, x: MatchedRule): (r: seq<MatchedRule>)
    ensures multiset(r) == multiset(s) + multiset{x}
  {
    if s == [] then [x]
    else if Less(x.0, s[0].0) then [x] + s
    else
      assert s == [s[0]] + s[1..];
      [s[0]] + Insert(s[1..], x)
  }

  /** Where `Insert` puts `x`. */
  function InsertPos(s: seq<MatchedRule>, x: MatchedRule): (n: nat)
    ensures n <= |s|
  {
    if s == [] || Less(x.0, s[0].0) then 0 else 1 + InsertPos(s[1..], x)
  }

  lemma ConsInsertShape(s: seq<MatchedRule>, x: MatchedRule, n: nat)
    requires 1 <= n <= |s|
    ensures [s[0]] + (s[1..][..n - 1] + [x] + s[1..][n - 1..]) == s[..n] + [x] + s[n..]
  {
    assert s[..n] == [s[0]] + s[1..][..n - 1];
    assert s[n..] == s[1..][n - 1..];
  }

  lemma {:induction false} InsertSplit(s: seq<MatchedRule>, x: MatchedRule)
    requires Sorted(s)
    ensures var n := InsertPos(s, x);
            Insert(s, x) == s[..n] + [x] + s[n..] &&
            (forall i :: 0 <= i < n ==> LessEq(s[i].0, x.0)) &&
            (forall i :: n <= i < |s| ==> Less(x.0, s[i].0))
  {
    if s == [] {
    } else if Less(x.0, s[0].0) {
      forall i | 0 <= i < |s| ensures Less(x.0, s[i].0) {
        LessIsStrictTotalOrder(x.0, s[0].0, s[i].0);
      }
    } else {
      InsertSplit(s[1..], x);
      LessIsStrictTotalOrder(x.0, s[0].0, x.0);
      var n := InsertPos(s, x);
      ConsInsertShape(s, x, n);
      forall i | 1 <= i < n ensures LessEq(s[i].0, x.0) {
        assert s[i] == s[1..][i - 1];
      }
      forall i | n <= i < |s| ensures Less(x.0, s[i].0) {
        assert s[i] == s[1..][i - 1];
      }
    }
  }

  /** Where each element of `s` lands once `x` is inserted at `n`. */
  lemma InsertIndex(s: seq<MatchedRule>, x: MatchedRule, n: nat)
    requires n <= |s|
    ensures var r := s[..n] + [x] + s[n..];
            |r| == |s| + 1 && r[n] == x &&
            (forall i :: 0 <= i < n ==> r[i] == s[i]) &&
            (forall i :: n < i < |r| ==> r[i] == s[i - 1])
  {
  }

  lemma InsertSorted(s: seq<MatchedRule>, x: MatchedRule)
    requires Sorted(s)
    ensures Sorted(Insert(s, x))
  {
    InsertSplit(s, x);
    var n := InsertPos(s, x);
    var r := Insert(s, x);
    InsertIndex(s, x, n);
    forall i, j | 0 <= i < j < |r| ensures LessEq(r[i].0, r[j].0) {
      if j < n {
        assert r[i] == s[i] && r[j] == s[j];
      } else if j == n {
        assert r[i] == s[i];
      } else if i < n {
        assert r[i] == s[i] && r[j] == s[j - 1];
      } else if i == n {
        assert r[j] == s[j - 1];
      } else {
        assert r[i] == s[i - 1] && r[j] == s[j - 1];
      }
    }
  }

  /** `sort_by` on specificity: a stable sort, modelled as insertion of each rule, in
      stylesheet order, into the already sorted earlier ones. */
  function Sort(ms: seq<MatchedRule>): (r: seq<MatchedRule>)
    ensures multiset(r) == multiset(ms)
  {
    if ms == [] then []
    else
      assert ms == ms[..|ms| - 1] + [ms[|ms| - 1]];
      Insert(Sort(ms[..|ms| - 1]), ms[|ms| - 1])
  }

  lemma {:induction false} SortIsSorted(ms: seq<MatchedRule>)
    ensures Sorted(Sort(ms))
  {
    if ms != [] {
      SortIsSorted(ms[..|ms| - 1]);
      InsertSorted(Sort(ms[..|ms| - 1]), ms[|ms| - 1]);
    }
  }

  /** The rules of specificity `c`, in order. */
  function WithKey(s: seq<MatchedRule>, c: Specificity): (r: seq<MatchedRule>)
    ensures forall i :: 0 <= i < |r| ==> r[i].0 == c
  {
    if s == [] then []
    else WithKey(s[..|s| - 1], c) + (if s[|s| - 1].0 == c then [s[|s| - 1]] else [])
  }

  lemma {:induction false} WithKeyAppend(a: seq<MatchedRule>, b: seq<MatchedRule>, c: Specificity)
    ensures WithKey(a + b, c) == WithKey(a, c) + WithKey(b, c)
  {
    if b == [] {
      assert a + b == a;
    } else {
      assert (a + b)[..|a + b| - 1] == a + b[..|b| - 1];
      WithKeyAppend(a, b[..|b| - 1], c);
    }
  }

  lemma {:induction false} WithKeyAbove(s: seq<MatchedRule>, c: Specificity)
    requires forall i :: 0 <= i < |s| ==> Less(c, s[i].0)
    ensures WithKey(s, c) == []
  {
    if s != [] {
      LessIsStrictTotalOrder(c, c, c);
      WithKeyAbove(s[..|s| - 1], c);
    }
  }

  lemma WithKeyMiddle(lo: seq<MatchedRule>, x: MatchedRule, hi: seq<MatchedRule>, c: Specificity)
    requires forall i :: 0 <= i < |hi| ==> Less(x.0, hi[i].0)
    ensures WithKey(lo + [x] + hi, c) == WithKey(lo + hi, c) + (if x.0 == c then [x] else [])
  {
    WithKeyAppend(lo, hi, c);
    WithKeyAppend(lo + [x], hi, c);
    WithKeyAppend(lo, [x], c);
    var single: seq<MatchedRule> := [x];
    assert single[..0] == [];
    if x.0 == c {
      WithKeyAbove(hi, c);
    }
  }

  lemma InsertWithKey(s: seq<MatchedRule>, x: MatchedRule, c: Specificity)
    requires Sorted(s)
    ensures WithKey(Insert(s, x), c) == WithKey(s, c) + (if x.0 == c then [x] else [])
  {
    InsertSplit(s, x);
    var n := InsertPos(s, x);
    assert s == s[..n] + s[n..];
    WithKeyMiddle(s[..n], x, s[n..], c);
  }

  /** The sort is stable: rules of equal specificity keep their stylesheet order. */
  lemma {:induction false} SortIsStable(ms: seq<MatchedRule>, c: Specificity)
    ensures WithKey(Sort(ms), c) == WithKey(ms, c)
  {
    if ms != [] {
      var prev := ms[..|ms| - 1];
      SortIsSorted(prev);
      SortIsStable(prev, c);
      InsertWithKey(Sort(prev), ms[|ms| - 1], c);
    }
  }

  // ---- the winning rule ----

  /** Index of the matched rule whose declaration of `k` wins: the highest specificity,
      and the later rule among equals. */
  function BestIndex(ms: seq<MatchedRule>, k: string): (r: Option<nat>)
    ensures r.Some? ==> r.value < |ms|
  {
    if ms == [] then Option.None
    else
      var b := BestIndex(ms[..|ms| - 1], k);
      var x := ms[|ms| - 1];
      if Declares(x.1.declarations, k) && (b.None? || LessEq(ms[b.value].0, x.0)) then Some(|ms| - 1)
      else b
  }

  /** Rule `i` declares `k` and beats every other rule declaring `k`. */
  predicate IsWinner(ms: seq<MatchedRule>, k: string, i: nat)
  {
    i < |ms| && Declares(ms[i].1.declarations, k) &&
    forall j :: 0 <= j < |ms| && Declares(ms[j].1.declarations, k) ==>
      LessEq(ms[j].0, ms[i].0) && (ms[j].0 == ms[i].0 ==> j <= i)
  }

  lemma {:induction false} BestIndexIsWinner(ms: seq<MatchedRule>, k: string)
    ensures BestIndex(ms, k).Some? <==> exists i :: 0 <= i < |ms| && Declares(ms[i].1.declarations, k)
    ensures BestIndex(ms, k).Some? ==> IsWinner(ms, k, BestIndex(ms, k).value)
  {
    if ms != [] {
      var prev := ms[..|ms| - 1];
      var x := ms[|ms| - 1];
      BestIndexIsWinner(prev, k);
      var b := BestIndex(prev, k);
      forall j | 0 <= j < |prev| ensures prev[j] == ms[j] { }
      if b.Some? {
        var i := b.value;
        forall j | 0 <= j < |ms| && Declares(ms[j].1.declarations, k)
          ensures LessEq(ms[j].0, ms[i].0) || LessEq(ms[i].0, ms[j].0)
        {
          LessIsStrictTotalOrder(ms[j].0, ms[i].0, ms[i].0);
        }
        if Declares(x.1.declarations, k) && LessEq(ms[i].0, x.0) {
          forall j | 0 <= j < |ms| && Declares(ms[j].1.declarations, k)
            ensures LessEq(ms[j].0, x.0)
          {
            if j < |ms| - 1 {
              assert LessEq(ms[j].0, ms[i].0);
              LessIsStrictTotalOrder(ms[j].0, ms[i].0, x.0);
            }
          }
        } else if Declares(x.1.declarations, k) {
          LessIsStrictTotalOrder(x.0, ms[i].0, x.0);
        }
      }
    }
  }

  lemma {:induction false} LastDeclaringAppend(a: seq<MatchedRule>, b: seq<MatchedRule>, k: string)
    ensures LastDeclaring(a + b, k) ==
              if LastDeclaring(b, k).Some? then LastDeclaring(b, k) else LastDeclaring(a, k)
  {
    if b == [] {
      assert a + b == a;
    } else {
      assert (a + b)[..|a + b| - 1] == a + b[..|b| - 1];
      LastDeclaringAppend(a, b[..|b| - 1], k);
    }
  }

  lemma LastDeclaringMiddle(lo: seq<MatchedRule>, x: MatchedRule, hi: seq<MatchedRule>, k: string)
    requires forall i :: 0 <= i < |lo| ==> LessEq(lo[i].0, x.0)
    requires forall i :: 0 <= i < |hi| ==> Less(x.0, hi[i].0)
    ensures var l := LastDeclaring(lo + hi, k);
            LastDeclaring(lo + [x] + hi, k) ==
              if Declares(x.1.declarations, k) && (l.None? || LessEq(l.value.0, x.0)) then Some(x) else l
  {
    LastDeclaringAppend(lo, hi, k);
    LastDeclaringAppend(lo + [x], hi, k);
    LastDeclaringAppend(lo, [x], k);
    var single: seq<MatchedRule> := [x];
    assert single[..0] == [];
    var h := LastDeclaring(hi, k);
    if h.Some? {
      var j :| 0 <= j < |hi| && hi[j] == h.value;
      LessIsStrictTotalOrder(x.0, h.value.0, x.0);
    } else if LastDeclaring(lo, k).Some? {
      var l := LastDeclaring(lo, k);
      var j :| 0 <= j < |lo| && lo[j] == l.value;
    }
  }

  /** In a sorted list, inserting `x` makes it the last rule declaring `k` unless a rule of
      higher specificity declares `k` after it. */
  lemma InsertLastDeclaring(s: seq<MatchedRule>, x: MatchedRule, k: string)
    requires Sorted(s)
    ensures var l := LastDeclaring(s, k);
            LastDeclaring(Insert(s, x), k) ==
              if Declares(x.1.declarations, k) && (l.None? || LessEq(l.value.0, x.0)) then Some(x) else l
  {
    InsertSplit(s, x);
    var n := InsertPos(s, x);
    assert s == s[..n] + s[n..];
    LastDeclaringMiddle(s[..n], x, s[n..], k);
  }

  /** After sorting, the last rule declaring `k` is the winner. */
  lemma {:induction false} SortedLastIsBest(ms: seq<MatchedRule>, k: string)
    ensures LastDeclaring(Sort(ms), k) ==
              match BestIndex(ms, k) case None => Option.None case Some(i) => Some(ms[i])
  {
    if ms != [] {
      var prev := ms[..|ms| - 1];
      var x := ms[|ms| - 1];
      assert Sort(ms) == Insert(Sort(prev), x);
      SortIsSorted(prev);
      SortedLastIsBest(prev, k);
      InsertLastDeclaring(Sort(prev), x, k);
      var b := BestIndex(prev, k);
      assert BestIndex(ms, k) ==
        if Declares(x.1.declarations, k) && (b.None? || LessEq(ms[b.value].0, x.0)) then Some(|ms| - 1) else b;
      if b.Some? {
        assert prev[b.value] == ms[b.value];
      }
    }
  }

  // ---- specified values ----

  /** The property map `specified_values` builds from the matched rules. */
  function Cascade(ms: seq<MatchedRule>): PropertyMap
  {
    ApplyRules(map[], Sort(ms))
  }

  /** A property is specified iff some matched rule declares it, and its value is the last
      declaration of it in the winning rule: the highest specificity, ties going to the rule
      later in the stylesheet. */
  lemma CascadeWinner(ms: seq<MatchedRule>, k: string)
    ensures k in Cascade(ms) <==> exists i :: 0 <= i < |ms| && Declares(ms[i].1.declarations, k)
    ensures k in Cascade(ms) ==>
              exists i: nat :: IsWinner(ms, k, i) && Cascade(ms)[k] == LastDeclared(ms[i].1.declarations, k).value
  {
    ApplyRulesLookup(map[], Sort(ms), k);
    SortedLastIsBest(ms, k);
    BestIndexIsWinner(ms, k);
  }

  /** The inner loop of `specified_values`: insert the declarations of one rule in order. */
  method InsertDeclarations(before: PropertyMap, decls: seq<Declaration>) returns (values: PropertyMap)
    ensures values == ApplyDecls(before, decls)
  {
    values := before;
    for j := 0 to |decls|
      invariant values == ApplyDecls(before, decls[..j])
    {
      values := values[decls[j].name := decls[j].value];
      assert decls[..j + 1][..j] == decls[..j];
    }
    assert decls[..|decls|] == decls;
  }

  /** `specified_values`: sort the matched rules by specificity, then insert every
      declaration of every rule into the map, in that order. */
  method SpecifiedValues(element: ElementData, sheet: Stylesheet) returns (values: PropertyMap)
    ensures values == Cascade(MatchingRules(sheet.rules, element))
  {
    values := map[];
    var rules := Sort(MatchingRules(sheet.rules, element));
    for i := 0 to |rules|
      invariant values == ApplyRules(map[], rules[..i])
    {
      values := InsertDeclarations(values, rules[i].1.declarations);
      assert rules[..i + 1][..i] == rules[..i];
    }
    assert rules[..|rules|] == rules;
  }

  // ---- the style tree ----

  /** The values specified for a content node: those of the cascade for an element, none
      for text. */
  function ValuesFor(node: Node, sheet: Stylesheet): (m: PropertyMap)
    ensures node.data.Text? ==> m == map[]
  {
    match node.data
    case Element(element) => Cascade(MatchingRules(sheet.rules, element))
    case Text(_) => map[]
  }

  /** `style_tree`: the styled node of a content node, its children styled in order. */
  function BuildStyleTree(root: Node, sheet: Stylesheet): (r: StyledNode)
    ensures r.node == root && |r.children| == |root.children|
    ensures r.specifiedValues == ValuesFor(root, sheet)
    decreases root
  {
    StyledNode(root, ValuesFor(root, sheet),
               seq(|root.children|, i requires 0 <= i < |root.children| => BuildStyleTree(root.children[i], sheet)))
  }

  /** A styled tree that mirrors a content tree node for node, each styled node carrying
      its content node and that node's specified values. */
  predicate Mirrors(styled: StyledNode, node: Node, sheet: Stylesheet)
    decreases node
  {
    styled.node == node && styled.specifiedValues == ValuesFor(node, sheet) &&
    |styled.children| == |node.children| &&
    forall i :: 0 <= i < |node.children| ==> Mirrors(styled.children[i], node.children[i], sheet)
  }

  lemma {:induction false} StyleTreeMirrors(root: Node, sheet: Stylesheet)
    ensures Mirrors(BuildStyleTree(root, sheet), root, sheet)
    decreases root
  {
    forall i | 0 <= i < |root.children|
      ensures Mirrors(BuildStyleTree(root, sheet).children[i], root.children[i], sheet)
    {
      StyleTreeMirrors(root.children[i], sheet);
    }
  }

  // ---- reading values back ----

  /** `StyledNode::value`: the entry for exactly `k`. */
  function ValueOf(sn: StyledNode, k: string): (r: Option<Value>)
    ensures r.Some? <==> k in sn.specifiedValues
    ensures r.Some? ==> r.value == sn.specifiedValues[k]
  {
    if k in sn.specifiedValues then Some(sn.specifiedValues[k]) else Option.None
  }

  /** `StyledNode::display`: the kind of a `Display` value, and `Inline` otherwise. */
  function DisplayOf(sn: StyledNode): (d: DisplayKind)
    ensures ValueOf(sn, "display").Some? && ValueOf(sn, "display").value.Display? ==>
              d == ValueOf(sn, "display").value.kind
    ensures !(ValueOf(sn, "display").Some? && ValueOf(sn, "display").value.Display?) ==> d == Inline
  {
    match ValueOf(sn, "display")
    case Some(Display(d)) => d
    case _ => Inline
  }

  /** `StyledNode::lookup`: the longhand, else the shorthand, else the default. */
  function Lookup(sn: StyledNode, k: string, shorthand: string, default: Value): (v: Value)
    ensures k in sn.specifiedValues ==> v == sn.specifiedValues[k]
    ensures k !in sn.specifiedValues && shorthand in sn.specifiedValues ==> v == sn.specifiedValues[shorthand]
    ensures k !in sn.specifiedValues && shorthand !in sn.specifiedValues ==> v == default
  {
    if k in sn.specifiedValues then sn.specifiedValues[k]
    else if shorthand in sn.specifiedValues then sn.specifiedValues[shorthand]
    else default
  }

  /** `lookup` is `value` of the longhand, falling back to `value` of the shorthand. */
  lemma LookupIsValueFallback(sn: StyledNode, k: string, shorthand: string, default: Value)
    ensures Lookup(sn, k, shorthand, default) == ValueOf(sn, k).UnwrapOr(ValueOf(sn, shorthand).UnwrapOr(default))
  {
  }

  /** Text is always displayed inline. */
  lemma TextIsInline(node: Node, sheet: Stylesheet)
    requires node.data.Text?
    ensures DisplayOf(BuildStyleTree(node, sheet)) == Inline
  {
  }

  /** At most one rule wins a property: the order is total and ties go to the later rule. */
  lemma WinnerUnique(ms: seq<MatchedRule>, k: string, i: nat, j: nat)
    requires IsWinner(ms, k, i) && IsWinner(ms, k, j)
    ensures i == j
  {
    LessIsStrictTotalOrder(ms[i].0, ms[j].0, ms[i].0);
  }

  /** The rule that wins property `k` declares it `v` last. */
  ghost predicate WinsWith(ms: seq<MatchedRule>, k: string, v: Value)
  {
    exists i: nat :: IsWinner(ms, k, i) && LastDeclared(ms[i].1.declarations, k).value == v
  }

  /** The cascade gives a property the value `v` exactly when the winning rule for it
      declares it `v` last. */
  lemma WinnerDecides(ms: seq<MatchedRule>, k: string, v: Value)
    ensures (k in Cascade(ms) && Cascade(ms)[k] == v) <==> WinsWith(ms, k, v)
  {
    CascadeWinner(ms, k);
    forall i: nat | IsWinner(ms, k, i) && LastDeclared(ms[i].1.declarations, k).value == v
      ensures k in Cascade(ms) && Cascade(ms)[k] == v
    {
      assert k in Cascade(ms);
      var w: nat :| IsWinner(ms, k, w) && Cascade(ms)[k] == LastDeclared(ms[w].1.declarations, k).value;
      WinnerUnique(ms, k, i, w);
    }
  }

  /** A node of the style tree is removed from layout exactly when it is an element and
      the rule that wins its `display` property declares it `none` last. */
  lemma DisplayNoneFromCascade(node: Node, sheet: Stylesheet)
    ensures DisplayOf(BuildStyleTree(node, sheet)) == DisplayKind.None <==>
              node.data.Element? &&
              WinsWith(MatchingRules(sheet.rules, node.data.element), "display", Display(DisplayKind.None))
  {
    var m := BuildStyleTree(node, sheet).specifiedValues;
    assert m == ValuesFor(node, sheet);
    if node.data.Element? {
      var ms := MatchingRules(sheet.rules, node.data.element);
      assert m == Cascade(ms);
      WinnerDecides(ms, "display", Display(DisplayKind.None));
    }
  }
}
