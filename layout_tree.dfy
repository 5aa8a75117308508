/** The layout tree (src/layout.rs, `LayoutBox`, `build_layout_tree` and
    `get_inline_container`): one box per displayed styled node, with runs of inline children
    of a block gathered into anonymous boxes. */
module LayoutTree {
  import opened ContentTree
  import opened Style
  import opened StyleTree
  import opened BoxModel

  /** What a box was made for. The styled node is held by value. */
  datatype BoxType = InlineNode(style: StyledNode) | BlockNode(style: StyledNode) | Anonymous

  datatype LayoutBox = LayoutBox(dimensions: Dimensions, boxType: BoxType, children: seq<LayoutBox>)

  /** `LayoutBox::new`: default dimensions and no children. */
  function NewBox(boxType: BoxType): (b: LayoutBox)
    ensures b.dimensions == DefaultDimensions && b.boxType == boxType && b.children == []
  {
    LayoutBox(DefaultDimensions, boxType, [])
  }

  /** The children of a box with every anonymous box replaced by its own children: the boxes
      as they were pushed. */
  function Expand(cs: seq<LayoutBox>): seq<LayoutBox>
  {
    if cs == [] then []
    else
      var last := cs[|cs| - 1];
      Expand(cs[..|cs| - 1]) + (if last.boxType.Anonymous? then last.children else [last])
  }

  lemma ExpandPush(cs: seq<LayoutBox>, x: LayoutBox)
    ensures Expand(cs + [x]) == Expand(cs) + (if x.boxType.Anonymous? then x.children else [x])
  {
    assert (cs + [x])[..|cs|] == cs;
  }

  /** Adding `x` to a trailing anonymous box adds it at the end of the expansion. */
  lemma ExpandReplaceLast(pre: seq<LayoutBox>, last: LayoutBox, x: LayoutBox)
    requires last.boxType.Anonymous?
    ensures Expand(pre + [last.(children := last.children + [x])]) == Expand(pre + [last]) + [x]
  {
    ExpandPush(pre, last.(children := last.children + [x]));
    ExpandPush(pre, last);
  }

  /** `get_inline_container` followed by a push: an inline or anonymous box takes the child
      itself; a block box adds it to its last child when that is anonymous, and otherwise to
      a new anonymous box appended for it. Either way the child comes last, in order. */
  function PushInline(b: LayoutBox, x: LayoutBox): (r: LayoutBox)
    requires !x.boxType.Anonymous?
    ensures r.boxType == b.boxType && r.dimensions == b.dimensions
    ensures !b.boxType.BlockNode? ==> r.children == b.children + [x]
    ensures b.boxType.BlockNode? ==>
              0 < |r.children| && |b.children| <= |r.children| <= |b.children| + 1 &&
              r.children[|r.children| - 1].boxType.Anonymous? &&
              r.children[..|r.children| - 1] == b.children[..|r.children| - 1] &&
              Expand(r.children) == Expand(b.children) + [x]
  {
    match b.boxType
    case Anonymous => b.(children := b.children + [x])
    case InlineNode(_) => b.(children := b.children + [x])
    case BlockNode(_) =>
      var n := |b.children|;
      if n > 0 && b.children[n - 1].boxType.Anonymous? then
        var last := b.children[n - 1];
        var last' := last.(children := last.children + [x]);
        assert b.children == b.children[..n - 1] + [last];
        ExpandReplaceLast(b.children[..n - 1], last, x);
        b.(children := b.children[..n - 1] + [last'])
      else
        var anon := NewBox(Anonymous).(children := [x]);
        ExpandPush(b.children, anon);
        b.(children := b.children + [anon])
  }

  /** The box type of a displayed styled node. */
  function BoxTypeFor(sn: StyledNode): (t: BoxType)
    requires DisplayOf(sn) != DisplayKind.None
    ensures DisplayOf(sn) == Inline ==> t == InlineNode(sn)
    ensures DisplayOf(sn) == Block ==> t == BlockNode(sn)
  {
    if DisplayOf(sn) == Inline then InlineNode(sn) else BlockNode(sn)
  }

  /** `build_layout_tree` after its loop has seen the first `i` children. */
  function BuildUpTo(sn: StyledNode, i: nat): (b: LayoutBox)
    requires DisplayOf(sn) != DisplayKind.None && i <= |sn.children|
    ensures b.boxType == BoxTypeFor(sn) && b.dimensions == DefaultDimensions
    decreases sn, i
  {
    if i == 0 then NewBox(BoxTypeFor(sn))
    else
      var b := BuildUpTo(sn, i - 1);
      var child := sn.children[i - 1];
      match DisplayOf(child)
      case None => b
      case Block => b.(children := b.children + [BuildSpec(child)])
      case Inline => PushInline(b, BuildSpec(child))
  }

  /** The layout tree of a displayed styled node. */
  function BuildSpec(sn: StyledNode): (b: LayoutBox)
    requires DisplayOf(sn) != DisplayKind.None
    ensures b.boxType == BoxTypeFor(sn) && b.dimensions == DefaultDimensions
    decreases sn, |sn.children| + 1
  {
    BuildUpTo(sn, |sn.children|)
  }

  /** `build_layout_tree`. The root must not be `display: none` (the source panics). */
  method BuildLayoutTree(sn: StyledNode) returns (root: LayoutBox)
    requires DisplayOf(sn) != DisplayKind.None
    ensures root == BuildSpec(sn)
    decreases sn
  {
    root := NewBox(BoxTypeFor(sn));
    for i := 0 to |sn.children|
      invariant root == BuildUpTo(sn, i)
    {
      var child := sn.children[i];
      match DisplayOf(child)
      case None =>
      case Block =>
        var c := BuildLayoutTree(child);
        root := root.(children := root.children + [c]);
      case Inline =>
        var c := BuildLayoutTree(child);
        root := PushInline(root, c);
    }
  }

  /** The boxes built for the displayed children among the first `i`, in order; a child with
      `display: none` contributes nothing, its subtree included. */
  function Built(sn: StyledNode, i: nat): seq<LayoutBox>
    requires i <= |sn.children|
    decreases sn, i
  {
    if i == 0 then []
    else
      var child := sn.children[i - 1];
      Built(sn, i - 1) + (if DisplayOf(child) == DisplayKind.None then [] else [BuildSpec(child)])
  }

  /** One step of the loop adds the child's box, if any, at the end of the expansion. */
  lemma BuildUpToStep(sn: StyledNode, i: nat)
    requires DisplayOf(sn) != DisplayKind.None && 0 < i <= |sn.children|
    ensures Expand(BuildUpTo(sn, i).children) ==
              Expand(BuildUpTo(sn, i - 1).children) +
              (if DisplayOf(sn.children[i - 1]) == DisplayKind.None then [] else [BuildSpec(sn.children[i - 1])])
  {
    var b := BuildUpTo(sn, i - 1);
    var child := sn.children[i - 1];
    match DisplayOf(child)
    case None =>
    case Block =>
      ExpandPush(b.children, BuildSpec(child));
    case Inline =>
      var c := BuildSpec(child);
      if !b.boxType.BlockNode? {
        ExpandPush(b.children, c);
      }
  }

  lemma {:induction false} BuildUpToKeepsOrder(sn: StyledNode, i: nat)
    requires DisplayOf(sn) != DisplayKind.None && i <= |sn.children|
    ensures Expand(BuildUpTo(sn, i).children) == Built(sn, i)
  {
    if i > 0 {
      BuildUpToKeepsOrder(sn, i - 1);
      BuildUpToStep(sn, i);
    }
  }

  /** The displayed children are all in the tree, in order, once anonymous boxes are looked
      through; the others are left out with their subtrees. */
  lemma BuildKeepsOrder(sn: StyledNode)
    requires DisplayOf(sn) != DisplayKind.None
    ensures Expand(BuildSpec(sn).children) == Built(sn, |sn.children|)
  {
    BuildUpToKeepsOrder(sn, |sn.children|);
  }

  /** The shape rules of a built tree: a block holds blocks and anonymous boxes, never two
      anonymous boxes in a row; an anonymous box holds at least one box, all inline; an
      inline box holds no anonymous box. */
  predicate ChildrenFit(b: LayoutBox)
  {
    match b.boxType
    case BlockNode(_) =>
      (forall i :: 0 <= i < |b.children| ==> !b.children[i].boxType.InlineNode?) &&
      (forall i :: 0 <= i < |b.children| - 1 ==>
         !(b.children[i].boxType.Anonymous? && b.children[i + 1].boxType.Anonymous?))
    case InlineNode(_) => forall i :: 0 <= i < |b.children| ==> !b.children[i].boxType.Anonymous?
    case Anonymous => |b.children| > 0 && forall i :: 0 <= i < |b.children| ==> b.children[i].boxType.InlineNode?
  }

  predicate WellFormed(b: LayoutBox)
    decreases b
  {
    ChildrenFit(b) && forall i :: 0 <= i < |b.children| ==> WellFormed(b.children[i])
  }

  /** Appending a box that fits keeps a box well formed. */
  lemma AppendWellFormed(b: LayoutBox, c: LayoutBox)
    requires WellFormed(b) && WellFormed(c)
    requires ChildrenFit(b.(children := b.children + [c]))
    ensures WellFormed(b.(children := b.children + [c]))
  {
    var r := b.(children := b.children + [c]);
    assert forall j :: 0 <= j < |b.children| ==> r.children[j] == b.children[j];
  }

  /** Replacing the last child by a well-formed box that fits keeps a box well formed. */
  lemma ReplaceLastWellFormed(b: LayoutBox, c: LayoutBox)
    requires 0 < |b.children| && WellFormed(b) && WellFormed(c)
    requires ChildrenFit(b.(children := b.children[..|b.children| - 1] + [c]))
    ensures WellFormed(b.(children := b.children[..|b.children| - 1] + [c]))
  {
    var r := b.(children := b.children[..|b.children| - 1] + [c]);
    assert forall j :: 0 <= j < |b.children| - 1 ==> r.children[j] == b.children[j];
  }

  /** An inline box added to an anonymous box keeps it well formed. */
  lemma AnonymousExtendWellFormed(last: LayoutBox, x: LayoutBox)
    requires last.boxType.Anonymous? && WellFormed(last) && WellFormed(x) && x.boxType.InlineNode?
    ensures WellFormed(last.(children := last.children + [x]))
  {
    AppendWellFormed(last, x);
  }

  lemma BlockFitReplaceLast(b: LayoutBox, c: LayoutBox)
    requires b.boxType.BlockNode? && 0 < |b.children| && ChildrenFit(b)
    requires b.children[|b.children| - 1].boxType.Anonymous? && c.boxType.Anonymous?
    ensures ChildrenFit(b.(children := b.children[..|b.children| - 1] + [c]))
  {
  }

  /** The block case where the last child is an anonymous box: `x` joins it. */
  lemma PushIntoAnonymousWellFormed(b: LayoutBox, x: LayoutBox)
    requires b.boxType.BlockNode? && WellFormed(b) && WellFormed(x) && x.boxType.InlineNode?
    requires 0 < |b.children| && b.children[|b.children| - 1].boxType.Anonymous?
    ensures WellFormed(PushInline(b, x))
  {
    var n := |b.children|;
    var last := b.children[n - 1];
    var last' := last.(children := last.children + [x]);
    assert PushInline(b, x) == b.(children := b.children[..n - 1] + [last']);
    AnonymousExtendWellFormed(last, x);
    BlockFitReplaceLast(b, last');
    ReplaceLastWellFormed(b, last');
  }

  /** The block case where the last child is no anonymous box: a new one wraps `x`. */
  lemma PushNewAnonymousWellFormed(b: LayoutBox, x: LayoutBox)
    requires b.boxType.BlockNode? && WellFormed(b) && WellFormed(x) && x.boxType.InlineNode?
    requires |b.children| == 0 || !b.children[|b.children| - 1].boxType.Anonymous?
    ensures WellFormed(PushInline(b, x))
  {
    var anon := NewBox(Anonymous).(children := [x]);
    assert PushInline(b, x) == b.(children := b.children + [anon]);
    assert WellFormed(anon);
    AppendWellFormed(b, anon);
  }

  lemma PushInlineWellFormed(b: LayoutBox, x: LayoutBox)
    requires !b.boxType.Anonymous? && WellFormed(b) && WellFormed(x) && x.boxType.InlineNode?
    ensures WellFormed(PushInline(b, x))
  {
    var n := |b.children|;
    if !b.boxType.BlockNode? {
      AppendWellFormed(b, x);
    } else if n > 0 && b.children[n - 1].boxType.Anonymous? {
      PushIntoAnonymousWellFormed(b, x);
    } else {
      PushNewAnonymousWellFormed(b, x);
    }
  }

  lemma {:induction false} BuildUpToWellFormed(sn: StyledNode, i: nat)
    requires DisplayOf(sn) != DisplayKind.None && i <= |sn.children|
    ensures WellFormed(BuildUpTo(sn, i))
    decreases sn, i
  {
    if i > 0 {
      BuildUpToWellFormed(sn, i - 1);
      var b := BuildUpTo(sn, i - 1);
      var child := sn.children[i - 1];
      if DisplayOf(child) != DisplayKind.None {
        BuildWellFormed(child);
        var c := BuildSpec(child);
        if DisplayOf(child) == Inline {
          PushInlineWellFormed(b, c);
        } else {
          AppendWellFormed(b, c);
        }
      }
    }
  }

  /** Every built tree obeys the shape rules. */
  lemma {:induction false} BuildWellFormed(sn: StyledNode)
    requires DisplayOf(sn) != DisplayKind.None
    ensures WellFormed(BuildSpec(sn))
    decreases sn, |sn.children| + 1
  {
    BuildUpToWellFormed(sn, |sn.children|);
  }
}
