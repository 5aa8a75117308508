/** Box geometry (src/layout.rs, `LayoutBox::layout` and the functions it calls). A box is
    a value: each `&mut self` operation takes the box and gives back the updated one. Each
    operation has a specification function and a method that follows the source step by
    step and is proved equal to it. */
module Layout {
  import opened Wrappers
  import opened ContentTree
  import opened Style
  import opened StyleTree
  import opened BoxModel
  import opened LayoutTree

  /** The value that marks a width or margin as automatic. */
  const AutoKeyword: Value := Keyword("auto")

  /** The initial value of margins and paddings. */
  const Zero: Value := AbsoluteLength(0)

  /** Rust's `a / 2` on `i32`: the quotient rounded toward zero, so the remainder has the
      sign of `a`. */
  function TruncHalf(a: int): (h: int)
    ensures a >= 0 ==> 0 <= a - 2 * h <= 1
    ensures a < 0 ==> -1 <= a - 2 * h <= 0
  {
    if a >= 0 then a / 2 else -((-a) / 2)
  }

  /** `if let Value::Border(b) = v { b } else { Border::None }`. */
  function BorderOf(v: Value): (b: Border)
    ensures v.Border? ==> b == v.border
    ensures !v.Border? ==> b == Border.None
  {
    match v
    case Border(b) => b
    case _ => Border.None
  }

  // ---------------------------------------------------------------------------------------
  // Horizontal sizes of a block box
  // ---------------------------------------------------------------------------------------

  datatype Widths = Widths(width: int, marginLeft: int, marginRight: int)

  /** The used width and horizontal margins of a block in a containing block `cw` wide. A
      value is automatic only when it is the keyword `auto`; any other value that is not a
      length counts 0. Whatever the case, margins and width add up to `cw`. */
  function ResolveWidths(width: Value, ml: Value, mr: Value, cw: int): (r: Widths)
    ensures r.marginLeft + r.width + r.marginRight == cw
  {
    var total := ToChars(ml) + ToChars(mr) + ToChars(width);
    var overflow := width != AutoKeyword && total > cw;
    var left := if overflow && ml == AutoKeyword then Zero else ml;
    var right := if overflow && mr == AutoKeyword then Zero else mr;
    var underflow := cw - total;
    if width == AutoKeyword then
      if underflow >= 0 then Widths(underflow, ToChars(left), ToChars(right))
      else Widths(0, ToChars(left), ToChars(right) + underflow)
    else if left == AutoKeyword && right == AutoKeyword then
      Widths(ToChars(width), TruncHalf(underflow), underflow - TruncHalf(underflow))
    else if left == AutoKeyword then Widths(ToChars(width), underflow, ToChars(right))
    else if right == AutoKeyword then Widths(ToChars(width), ToChars(left), underflow)
    else Widths(ToChars(width), ToChars(left), ToChars(right) + underflow)
  }

  /** A width that is not `auto` is used as declared. */
  lemma FixedWidthKept(width: Value, ml: Value, mr: Value, cw: int)
    requires width != AutoKeyword
    ensures ResolveWidths(width, ml, mr, cw).width == ToChars(width)
  {
  }

  /** An automatic width takes the room the margins leave, and never goes below zero; when
      the margins alone are too wide, the right margin gives way. Automatic margins are 0. */
  lemma AutoWidthFills(ml: Value, mr: Value, cw: int)
    ensures var r := ResolveWidths(AutoKeyword, ml, mr, cw);
            var room := cw - ToChars(ml) - ToChars(mr);
            r.width == Max(room, 0) && r.marginLeft == ToChars(ml) &&
            (room >= 0 ==> r.marginRight == ToChars(mr)) &&
            (room < 0 ==> r.marginRight == cw - ToChars(ml))
  {
  }

  /** Both margins automatic and a width that fits: the room is split between them, the
      right margin taking the odd character. */
  lemma AutoMarginsCenter(width: Value, cw: int)
    requires width != AutoKeyword && ToChars(width) <= cw
    ensures var r := ResolveWidths(width, AutoKeyword, AutoKeyword, cw);
            r.marginLeft == TruncHalf(cw - ToChars(width)) &&
            0 <= r.marginRight - r.marginLeft <= 1
  {
  }

  /** One automatic margin takes all the room the rest leaves, when the rest fits. */
  lemma AutoMarginTakesRoom(width: Value, fixed: Value, cw: int)
    requires width != AutoKeyword && fixed != AutoKeyword
    requires ToChars(width) + ToChars(fixed) <= cw
    ensures ResolveWidths(width, AutoKeyword, fixed, cw).marginLeft == cw - ToChars(width) - ToChars(fixed) >= 0
    ensures ResolveWidths(width, fixed, AutoKeyword, cw).marginRight == cw - ToChars(width) - ToChars(fixed) >= 0
  {
  }

  /** A fixed width wider than the room turns automatic margins into 0, and the right
      margin absorbs the overflow (it goes negative). */
  lemma OverflowDropsAutoMargins(width: Value, ml: Value, mr: Value, cw: int)
    requires width != AutoKeyword && ToChars(ml) + ToChars(mr) + ToChars(width) > cw
    ensures var r := ResolveWidths(width, ml, mr, cw);
            r.marginLeft == ToChars(ml) && r.marginRight == cw - ToChars(width) - ToChars(ml) &&
            r.marginRight < ToChars(mr)
  {
  }

  /** The stylesheet parser reads `margin: auto` as the `Auto` value, which is not the
      keyword `auto`: such a margin is laid out exactly like a zero-length one. */
  lemma ParsedAutoMarginIsZero(width: Value, mr: Value, cw: int)
    ensures ResolveWidths(width, Auto, mr, cw) == ResolveWidths(width, Zero, mr, cw)
    ensures ResolveWidths(width, mr, Auto, cw) == ResolveWidths(width, mr, Zero, cw)
  {
  }

  /** `calculate_block_width` as a function of the box's style and its containing block. */
  function BlockWidthDims(d: Dimensions, style: StyledNode, cb: Dimensions): (r: Dimensions)
    ensures r.margin.left + r.borderBox.width + r.margin.right == ContentBox(cb).width
    ensures r.borderBox.x == d.borderBox.x && r.borderBox.y == d.borderBox.y
    ensures r.borderBox.height == d.borderBox.height
    ensures r.margin.top == d.margin.top && r.margin.bottom == d.margin.bottom
    ensures r.padding.top == d.padding.top && r.padding.bottom == d.padding.bottom
    ensures r.border.top == d.border.top && r.border.bottom == d.border.bottom
  {
    var w := ResolveWidths(ValueOf(style, "width").UnwrapOr(AutoKeyword),
                           Lookup(style, "margin-left", "margin", Zero),
                           Lookup(style, "margin-right", "margin", Zero),
                           ContentBox(cb).width);
    d.(borderBox := d.borderBox.(width := w.width),
       padding := d.padding.(left := ToChars(Lookup(style, "padding-left", "padding", Zero)),
                             right := ToChars(Lookup(style, "padding-right", "padding", Zero))),
       margin := d.margin.(left := w.marginLeft, right := w.marginRight),
       border := d.border.(left := BorderOf(Lookup(style, "border-left", "border", Value.Border(Border.None))),
                           right := BorderOf(Lookup(style, "border-right", "border", Value.Border(Border.None)))))
  }

  /** `calculate_block_width`: works on the values as declared, replacing automatic ones as
      the rules for over- and under-constrained widths say. */
  method CalculateBlockWidth(d: Dimensions, style: StyledNode, cb: Dimensions) returns (r: Dimensions)
    ensures r == BlockWidthDims(d, style, cb)
  {
    var auto := Keyword("auto");
    var width := ValueOf(style, "width").UnwrapOr(auto);
    var zero := AbsoluteLength(0);
    var marginLeft := Lookup(style, "margin-left", "margin", zero);
    var marginRight := Lookup(style, "margin-right", "margin", zero);
    var borderLeft := BorderOf(Lookup(style, "border-left", "border", Value.Border(Border.None)));
    var borderRight := BorderOf(Lookup(style, "border-right", "border", Value.Border(Border.None)));
    var paddingLeft := Lookup(style, "padding-left", "padding", zero);
    var paddingRight := Lookup(style, "padding-right", "padding", zero);
    var total := ToChars(marginLeft) + ToChars(marginRight) + ToChars(width);
    if width != auto && total > ContentBox(cb).width {
      if marginLeft == auto {
        marginLeft := zero;
      }
      if marginRight == auto {
        marginRight := zero;
      }
    }
    var underflow := ContentBox(cb).width - total;
    match (width == auto, marginLeft == auto, marginRight == auto) {
    case (false, false, false) =>
      marginRight := AbsoluteLength(ToChars(marginRight) + underflow);
    case (false, false, true) =>
      marginRight := AbsoluteLength(underflow);
    case (false, true, false) =>
      marginLeft := AbsoluteLength(underflow);
    case (true, _, _) =>
      if marginLeft == auto {
        marginLeft := zero;
      }
      if marginRight == auto {
        marginRight := zero;
      }
      if underflow >= 0 {
        width := AbsoluteLength(underflow);
      } else {
        width := zero;
        marginRight := AbsoluteLength(ToChars(marginRight) + underflow);
      }
    case (false, true, true) =>
      var l := TruncHalf(underflow);
      var rr := underflow - l;
      marginLeft := AbsoluteLength(l);
      marginRight := AbsoluteLength(rr);
    }
    assert Widths(ToChars(width), ToChars(marginLeft), ToChars(marginRight)) ==
           ResolveWidths(ValueOf(style, "width").UnwrapOr(AutoKeyword),
                         Lookup(style, "margin-left", "margin", Zero),
                         Lookup(style, "margin-right", "margin", Zero),
                         ContentBox(cb).width);
    r := d.(borderBox := d.borderBox.(width := ToChars(width)),
            padding := d.padding.(left := ToChars(paddingLeft), right := ToChars(paddingRight)),
            margin := d.margin.(left := ToChars(marginLeft), right := ToChars(marginRight)),
            border := d.border.(left := borderLeft, right := borderRight));
  }

  // ---------------------------------------------------------------------------------------
  // Vertical sizes and position
  // ---------------------------------------------------------------------------------------

  /** `calculate_block_position`: vertical edges from the style, the height started at the
      vertical padding, the box placed after the containing block's content so far. */
  function BlockPositionDims(d: Dimensions, style: StyledNode, cb: Dimensions): (r: Dimensions)
    ensures r.borderBox.x == ContentBox(cb).x + d.margin.left
    ensures r.borderBox.y == ContentBox(cb).y + ContentBox(cb).height + r.margin.top
    ensures r.borderBox.height == r.padding.top + r.padding.bottom
    ensures r.borderBox.width == d.borderBox.width
    ensures r.margin.left == d.margin.left && r.margin.right == d.margin.right
    ensures r.padding.left == d.padding.left && r.padding.right == d.padding.right
    ensures r.border.left == d.border.left && r.border.right == d.border.right
  {
    var mt := ToChars(Lookup(style, "margin-top", "margin", Zero));
    var mb := ToChars(Lookup(style, "margin-bottom", "margin", Zero));
    var pt := ToChars(Lookup(style, "padding-top", "padding", Zero));
    var pb := ToChars(Lookup(style, "padding-bottom", "padding", Zero));
    var c := ContentBox(cb);
    d.(margin := d.margin.(top := mt, bottom := mb),
       border := d.border.(top := BorderOf(Lookup(style, "border-top", "border", Value.Border(Border.None))),
                           bottom := BorderOf(Lookup(style, "border-bottom", "border", Value.Border(Border.None)))),
       padding := d.padding.(top := pt, bottom := pb),
       borderBox := Rect(c.x + d.margin.left, c.y + c.height + mt, d.borderBox.width, pt + pb))
  }

  method CalculateBlockPosition(d0: Dimensions, style: StyledNode, cb: Dimensions) returns (d: Dimensions)
    ensures d == BlockPositionDims(d0, style, cb)
  {
    d := d0;
    var zero := AbsoluteLength(0);
    d := d.(margin := d.margin.(top := ToChars(Lookup(style, "margin-top", "margin", zero))));
    d := d.(margin := d.margin.(bottom := ToChars(Lookup(style, "margin-bottom", "margin", zero))));
    d := d.(border := d.border.(top := BorderOf(Lookup(style, "border-top", "border", Value.Border(Border.None)))));
    d := d.(border := d.border.(bottom := BorderOf(Lookup(style, "border-bottom", "border", Value.Border(Border.None)))));
    d := d.(padding := d.padding.(top := ToChars(Lookup(style, "padding-top", "padding", zero))));
    d := d.(padding := d.padding.(bottom := ToChars(Lookup(style, "padding-bottom", "padding", zero))));
    d := d.(borderBox := d.borderBox.(height := d.padding.top + d.padding.bottom));
    d := d.(borderBox := d.borderBox.(x := ContentBox(cb).x + d.margin.left));
    d := d.(borderBox := d.borderBox.(y := ContentBox(cb).y + ContentBox(cb).height + d.margin.top));
  }

  /** `calculate_inline_position`: horizontal edges from the style, one line high, as wide
      as its padding so far, placed after the containing block's content so far. */
  function InlinePositionDims(d: Dimensions, style: StyledNode, cb: Dimensions): (r: Dimensions)
    ensures r.borderBox.height == 1
    ensures r.borderBox.width == r.padding.left + r.padding.right
    ensures r.borderBox.x == ContentBox(cb).x + r.margin.left
    ensures r.borderBox.y == ContentBox(cb).y + ContentBox(cb).height
    ensures r.margin.top == d.margin.top && r.margin.bottom == d.margin.bottom && r.border == d.border
  {
    var ml := ToChars(Lookup(style, "margin-left", "margin", Zero));
    var mr := ToChars(Lookup(style, "margin-right", "margin", Zero));
    var pl := ToChars(Lookup(style, "padding-left", "padding", Zero));
    var pr := ToChars(Lookup(style, "padding-right", "padding", Zero));
    var c := ContentBox(cb);
    d.(margin := d.margin.(left := ml, right := mr),
       padding := d.padding.(left := pl, right := pr),
       borderBox := Rect(c.x + ml, c.y + c.height, pl + pr, 1))
  }

  method CalculateInlinePosition(d0: Dimensions, style: StyledNode, cb: Dimensions) returns (d: Dimensions)
    ensures d == InlinePositionDims(d0, style, cb)
  {
    var zero := AbsoluteLength(0);
    var marginLeft := ToChars(Lookup(style, "margin-left", "margin", zero));
    var marginRight := ToChars(Lookup(style, "margin-right", "margin", zero));
    var paddingLeft := ToChars(Lookup(style, "padding-left", "padding", zero));
    var paddingRight := ToChars(Lookup(style, "padding-right", "padding", zero));
    d := d0;
    d := d.(margin := d.margin.(left := marginLeft, right := marginRight));
    d := d.(padding := d.padding.(left := paddingLeft, right := paddingRight));
    d := d.(borderBox := d.borderBox.(height := 1));
    d := d.(borderBox := d.borderBox.(width := d.padding.left + d.padding.right));
    d := d.(borderBox := d.borderBox.(x := ContentBox(cb).x + d.margin.left));
    d := d.(borderBox := d.borderBox.(y := ContentBox(cb).y + ContentBox(cb).height));
  }

  // ---------------------------------------------------------------------------------------
  // The recursive layout
  // ---------------------------------------------------------------------------------------

  function AddHeight(d: Dimensions, h: int): Dimensions
  {
    d.(borderBox := d.borderBox.(height := d.borderBox.height + h))
  }

  function AddWidth(d: Dimensions, w: int): Dimensions
  {
    d.(borderBox := d.borderBox.(width := d.borderBox.width + w))
  }

  function ShiftX(d: Dimensions, dx: int): Dimensions
  {
    d.(borderBox := d.borderBox.(x := d.borderBox.x + dx))
  }

  /** The children laid out so far and how far they reach (down for a block, across for an
      inline box). */
  datatype Run = Run(children: seq<LayoutBox>, extent: int)

  /** `layout`: an anonymous box takes the whole containing block and lays its children out
      in a row; the others lay themselves out as blocks or inline boxes. */
  function LayoutSpec(b: LayoutBox, cb: Dimensions): (r: LayoutBox)
    ensures r.boxType == b.boxType && |r.children| == |b.children|
    decreases b, 3
  {
    match b.boxType
    case Anonymous => InlineChildren(b, cb)
    case InlineNode(_) => InlineSpec(b, cb)
    case BlockNode(_) => BlockSpec(b, cb)
  }

  /** `layout_block`: width, then position, then the children, then the height. */
  function BlockSpec(b: LayoutBox, cb: Dimensions): (r: LayoutBox)
    requires b.boxType.BlockNode?
    ensures r.boxType == b.boxType && |r.children| == |b.children|
    decreases b, 2
  {
    var style := b.boxType.style;
    var d := BlockPositionDims(BlockWidthDims(b.dimensions, style, cb), style, cb);
    ExplicitHeight(BlockChildren(b, d))
  }

  /** `layout_block_children` after the first `i` children: child `i` is laid out in the
      parent grown by the margin-box heights of the children before it. */
  function BlockRun(b: LayoutBox, d: Dimensions, i: nat): (r: Run)
    requires i <= |b.children|
    ensures |r.children| == i
    decreases b, 1, i
  {
    if i == 0 then Run([], 0)
    else
      var prev := BlockRun(b, d, i - 1);
      var c := LayoutSpec(b.children[i - 1], AddHeight(d, prev.extent));
      Run(prev.children + [c], prev.extent + MarginBox(c.dimensions).height)
  }

  function BlockChildren(b: LayoutBox, d: Dimensions): (r: LayoutBox)
    ensures r.boxType == b.boxType && |r.children| == |b.children|
    decreases b, 1, |b.children| + 1
  {
    var run := BlockRun(b, d, |b.children|);
    LayoutBox(AddHeight(d, run.extent), b.boxType, run.children)
  }

  /** `calculate_block_height`: an explicit length height replaces the accumulated one. */
  function ExplicitHeight(b: LayoutBox): (r: LayoutBox)
    requires !b.boxType.Anonymous?
    ensures r.boxType == b.boxType && r.children == b.children
    ensures r.dimensions == b.dimensions.(borderBox := b.dimensions.borderBox.(height := r.dimensions.borderBox.height))
    ensures var h := ValueOf(b.boxType.style, "height");
            h.Some? && h.value.AbsoluteLength? ==> r.dimensions.borderBox.height == h.value.length
    ensures var h := ValueOf(b.boxType.style, "height");
            !(h.Some? && h.value.AbsoluteLength?) ==> r == b
  {
    match ValueOf(b.boxType.style, "height")
    case Some(AbsoluteLength(h)) => b.(dimensions := b.dimensions.(borderBox := b.dimensions.borderBox.(height := h)))
    case _ => b
  }

  /** `layout_inline`: position, then the children, then the text. */
  function InlineSpec(b: LayoutBox, cb: Dimensions): (r: LayoutBox)
    requires b.boxType.InlineNode?
    ensures r.boxType == b.boxType && |r.children| == |b.children|
    decreases b, 2
  {
    TextWidth(InlineChildren(b, InlinePositionDims(b.dimensions, b.boxType.style, cb)))
  }

  /** `layout_inline_children` after the first `i` children: child `i` is laid out in the
      box's dimensions moved right by the margin-box widths of the children before it. */
  function InlineRun(b: LayoutBox, d: Dimensions, i: nat): (r: Run)
    requires i <= |b.children|
    ensures |r.children| == i
    decreases b, 1, i
  {
    if i == 0 then Run([], 0)
    else
      var prev := InlineRun(b, d, i - 1);
      var c := LayoutSpec(b.children[i - 1], ShiftX(d, prev.extent));
      Run(prev.children + [c], prev.extent + MarginBox(c.dimensions).width)
  }

  function InlineChildren(b: LayoutBox, d: Dimensions): (r: LayoutBox)
    ensures r.boxType == b.boxType && |r.children| == |b.children|
    decreases b, 1, |b.children| + 1
  {
    var run := InlineRun(b, d, |b.children|);
    LayoutBox(AddWidth(d, run.extent), b.boxType, run.children)
  }

  /** `calculate_inline_width`: a text box is wider by one character per character. */
  function TextWidth(b: LayoutBox): (r: LayoutBox)
    requires !b.boxType.Anonymous?
    ensures r.boxType == b.boxType && r.children == b.children
    ensures var text := TextOf(b.boxType.style.node);
            r.dimensions == AddWidth(b.dimensions, if text.Some? then |text.value| else 0)
  {
    match TextOf(b.boxType.style.node)
    case Some(text) => b.(dimensions := AddWidth(b.dimensions, |text|))
    case None => b
  }

  method Layout(b: LayoutBox, cb: Dimensions) returns (r: LayoutBox)
    ensures r == LayoutSpec(b, cb)
    decreases b, 3
  {
    match b.boxType
    case Anonymous =>
      r := LayoutInlineChildren(b, cb);
    case InlineNode(_) =>
      r := LayoutInline(b, cb);
    case BlockNode(_) =>
      r := LayoutBlock(b, cb);
  }

  method LayoutBlock(b: LayoutBox, cb: Dimensions) returns (r: LayoutBox)
    requires b.boxType.BlockNode?
    ensures r == BlockSpec(b, cb)
    decreases b, 2
  {
    var d := CalculateBlockWidth(b.dimensions, b.boxType.style, cb);
    d := CalculateBlockPosition(d, b.boxType.style, cb);
    r := LayoutBlockChildren(b, d);
    r := CalculateBlockHeight(r);
  }

  /** `layout_block_children`: each child is laid out in the parent as it stands, and the
      parent grows by the child's margin box. */
  method LayoutBlockChildren(b: LayoutBox, d0: Dimensions) returns (r: LayoutBox)
    ensures r == BlockChildren(b, d0)
    decreases b, 1
  {
    var d := d0;
    var children := b.children;
    for i := 0 to |b.children|
      invariant |children| == |b.children|
      invariant children[..i] == BlockRun(b, d0, i).children
      invariant children[i..] == b.children[i..]
      invariant d == AddHeight(d0, BlockRun(b, d0, i).extent)
    {
      assert children[i] == b.children[i] by { assert children[i..][0] == b.children[i..][0]; }
      var child := Layout(b.children[i], d);
      children := children[i := child];
      d := AddHeight(d, MarginBox(child.dimensions).height);
    }
    assert children == children[..|b.children|];
    r := LayoutBox(d, b.boxType, children);
  }

  method CalculateBlockHeight(b: LayoutBox) returns (r: LayoutBox)
    requires !b.boxType.Anonymous?
    ensures r == ExplicitHeight(b)
  {
    r := b;
    if ValueOf(b.boxType.style, "height").Some? && ValueOf(b.boxType.style, "height").value.AbsoluteLength? {
      var h := ValueOf(b.boxType.style, "height").value.length;
      r := r.(dimensions := r.dimensions.(borderBox := r.dimensions.borderBox.(height := h)));
    }
  }

  method LayoutInline(b: LayoutBox, cb: Dimensions) returns (r: LayoutBox)
    requires b.boxType.InlineNode?
    ensures r == InlineSpec(b, cb)
    decreases b, 2
  {
    var d := CalculateInlinePosition(b.dimensions, b.boxType.style, cb);
    r := LayoutInlineChildren(b, d);
    r := CalculateInlineWidth(r);
  }

  /** `layout_inline_children`: each child is laid out in a copy of the box's dimensions
      moved right past the children before it, and the box widens by each child. */
  method LayoutInlineChildren(b: LayoutBox, d0: Dimensions) returns (r: LayoutBox)
    ensures r == InlineChildren(b, d0)
    decreases b, 1
  {
    var leftSpace := d0;
    var d := d0;
    var children := b.children;
    for i := 0 to |b.children|
      invariant |children| == |b.children|
      invariant children[..i] == InlineRun(b, d0, i).children
      invariant children[i..] == b.children[i..]
      invariant leftSpace == ShiftX(d0, InlineRun(b, d0, i).extent)
      invariant d == AddWidth(d0, InlineRun(b, d0, i).extent)
    {
      assert children[i] == b.children[i] by { assert children[i..][0] == b.children[i..][0]; }
      var child := Layout(b.children[i], leftSpace);
      children := children[i := child];
      var childWidth := MarginBox(child.dimensions).width;
      leftSpace := ShiftX(leftSpace, childWidth);
      d := AddWidth(d, childWidth);
    }
    assert children == children[..|b.children|];
    r := LayoutBox(d, b.boxType, children);
  }

  method CalculateInlineWidth(b: LayoutBox) returns (r: LayoutBox)
    requires !b.boxType.Anonymous?
    ensures r == TextWidth(b)
  {
    r := b;
    var text := TextOf(b.boxType.style.node);
    if text.Some? {
      r := r.(dimensions := AddWidth(r.dimensions, |text.value|));
    }
  }

  // ---------------------------------------------------------------------------------------
  // Where the boxes end up
  // ---------------------------------------------------------------------------------------

  /** The total height of the margin boxes of `cs`. */
  function SumHeights(cs: seq<LayoutBox>): int
  {
    if cs == [] then 0 else SumHeights(cs[..|cs| - 1]) + MarginBox(cs[|cs| - 1].dimensions).height
  }

  /** The total width of the margin boxes of `cs`. */
  function SumWidths(cs: seq<LayoutBox>): int
  {
    if cs == [] then 0 else SumWidths(cs[..|cs| - 1]) + MarginBox(cs[|cs| - 1].dimensions).width
  }

  lemma SumsSnoc(cs: seq<LayoutBox>, c: LayoutBox)
    ensures SumHeights(cs + [c]) == SumHeights(cs) + MarginBox(c.dimensions).height
    ensures SumWidths(cs + [c]) == SumWidths(cs) + MarginBox(c.dimensions).width
  {
    assert (cs + [c])[..|cs|] == cs;
  }

  /** One more child of a prefix adds its margin box to the sums. */
  lemma SumsPrefixStep(cs: seq<LayoutBox>, k: nat)
    requires k < |cs|
    ensures SumHeights(cs[..k + 1]) == SumHeights(cs[..k]) + MarginBox(cs[k].dimensions).height
    ensures SumWidths(cs[..k + 1]) == SumWidths(cs[..k]) + MarginBox(cs[k].dimensions).width
  {
    assert cs[..k + 1][..k] == cs[..k];
  }

  /** A block run reaches down by the margin-box heights of the children laid out so far. */
  lemma {:induction false} BlockRunExtent(b: LayoutBox, d: Dimensions, i: nat)
    requires i <= |b.children|
    ensures BlockRun(b, d, i).extent == SumHeights(BlockRun(b, d, i).children)
  {
    if i > 0 {
      BlockRunExtent(b, d, i - 1);
      var prev := BlockRun(b, d, i - 1);
      SumsSnoc(prev.children, LayoutSpec(b.children[i - 1], AddHeight(d, prev.extent)));
    }
  }

  /** An inline run reaches across by the margin-box widths of the children so far. */
  lemma {:induction false} InlineRunExtent(b: LayoutBox, d: Dimensions, i: nat)
    requires i <= |b.children|
    ensures InlineRun(b, d, i).extent == SumWidths(InlineRun(b, d, i).children)
  {
    if i > 0 {
      InlineRunExtent(b, d, i - 1);
      var prev := InlineRun(b, d, i - 1);
      SumsSnoc(prev.children, LayoutSpec(b.children[i - 1], ShiftX(d, prev.extent)));
    }
  }

  /** Laying out more children leaves the ones already laid out alone. */
  lemma {:induction false} BlockRunPrefix(b: LayoutBox, d: Dimensions, i: nat, j: nat)
    requires i <= j <= |b.children|
    ensures BlockRun(b, d, j).children[..i] == BlockRun(b, d, i).children
    decreases j
  {
    if i < j {
      BlockRunPrefix(b, d, i, j - 1);
      var prev := BlockRun(b, d, j - 1).children;
      assert BlockRun(b, d, j).children[..j - 1] == prev;
      assert BlockRun(b, d, j).children[..i] == prev[..i];
    }
  }

  lemma {:induction false} InlineRunPrefix(b: LayoutBox, d: Dimensions, i: nat, j: nat)
    requires i <= j <= |b.children|
    ensures InlineRun(b, d, j).children[..i] == InlineRun(b, d, i).children
    decreases j
  {
    if i < j {
      InlineRunPrefix(b, d, i, j - 1);
      var prev := InlineRun(b, d, j - 1).children;
      assert InlineRun(b, d, j).children[..j - 1] == prev;
      assert InlineRun(b, d, j).children[..i] == prev[..i];
    }
  }

  /** Child `k` of a block is laid out in the parent grown by the children before it. */
  lemma BlockRunChild(b: LayoutBox, d: Dimensions, k: nat)
    requires k < |b.children|
    ensures var cs := BlockRun(b, d, |b.children|).children;
            cs[k] == LayoutSpec(b.children[k], AddHeight(d, SumHeights(cs[..k])))
  {
    var cs := BlockRun(b, d, |b.children|).children;
    BlockRunPrefix(b, d, k + 1, |b.children|);
    BlockRunPrefix(b, d, k, |b.children|);
    BlockRunExtent(b, d, k);
    assert cs[k] == cs[..k + 1][k];
  }

  /** Child `k` of an inline or anonymous box is laid out in the box moved right past the
      children before it. */
  lemma InlineRunChild(b: LayoutBox, d: Dimensions, k: nat)
    requires k < |b.children|
    ensures var cs := InlineRun(b, d, |b.children|).children;
            cs[k] == LayoutSpec(b.children[k], ShiftX(d, SumWidths(cs[..k])))
  {
    var cs := InlineRun(b, d, |b.children|).children;
    InlineRunPrefix(b, d, k + 1, |b.children|);
    InlineRunPrefix(b, d, k, |b.children|);
    InlineRunExtent(b, d, k);
    assert cs[k] == cs[..k + 1][k];
  }

  /** The dimensions a box lays its children out in, before they add to it. */
  function ChildrenDims(b: LayoutBox, cb: Dimensions): Dimensions
  {
    match b.boxType
    case Anonymous => cb
    case InlineNode(style) => InlinePositionDims(b.dimensions, style, cb)
    case BlockNode(style) => BlockPositionDims(BlockWidthDims(b.dimensions, style, cb), style, cb)
  }

  /** A block's children are stacked, the others' are put in a row; either way the box's
      left edge, top edge and vertical edges are those it laid its children out in. */
  lemma LaidOutChildren(b: LayoutBox, cb: Dimensions)
    ensures var r := LayoutSpec(b, cb);
            var d := ChildrenDims(b, cb);
            (b.boxType.BlockNode? ==> r.children == BlockRun(b, d, |b.children|).children) &&
            (!b.boxType.BlockNode? ==> r.children == InlineRun(b, d, |b.children|).children) &&
            r.dimensions.borderBox.x == d.borderBox.x && r.dimensions.borderBox.y == d.borderBox.y &&
            r.dimensions.margin == d.margin && r.dimensions.border == d.border &&
            r.dimensions.padding == d.padding &&
            (b.boxType.BlockNode? ==> r.dimensions.borderBox.width == d.borderBox.width) &&
            (!b.boxType.BlockNode? ==> r.dimensions.borderBox.height == d.borderBox.height)
  {
    var d := ChildrenDims(b, cb);
    match b.boxType
    case Anonymous =>
    case InlineNode(style) =>
      var m := InlineChildren(b, d);
      assert LayoutSpec(b, cb) == TextWidth(m);
    case BlockNode(style) =>
      var m := BlockChildren(b, d);
      assert LayoutSpec(b, cb) == ExplicitHeight(m);
  }

  /** A block or inline box's margin box starts at the left of the content of its
      containing block. */
  lemma LeftEdge(b: LayoutBox, cb: Dimensions)
    requires !b.boxType.Anonymous?
    ensures MarginBox(LayoutSpec(b, cb).dimensions).x == ContentBox(cb).x
  {
    LaidOutChildren(b, cb);
  }

  /** A block's margin box is exactly as wide as its containing block's content, and starts
      right below the content laid out there so far. */
  lemma BlockPlacement(b: LayoutBox, cb: Dimensions)
    requires b.boxType.BlockNode?
    ensures var m := MarginBox(LayoutSpec(b, cb).dimensions);
            m.x == ContentBox(cb).x && m.width == ContentBox(cb).width &&
            m.y == ContentBox(cb).y + ContentBox(cb).height
  {
    var d := ChildrenDims(b, cb);
    assert LayoutSpec(b, cb) == ExplicitHeight(BlockChildren(b, d));
  }

  /** A block is as high as declared when its height is a length, and otherwise as high as
      its vertical padding and its children's margin boxes. */
  lemma BlockHeight(b: LayoutBox, cb: Dimensions)
    requires b.boxType.BlockNode?
    ensures var r := LayoutSpec(b, cb);
            var declared := ValueOf(b.boxType.style, "height");
            (declared.Some? && declared.value.AbsoluteLength? ==>
               r.dimensions.borderBox.height == declared.value.length) &&
            (!(declared.Some? && declared.value.AbsoluteLength?) ==>
               r.dimensions.borderBox.height ==
                 r.dimensions.padding.top + r.dimensions.padding.bottom + SumHeights(r.children))
  {
    var d := ChildrenDims(b, cb);
    assert LayoutSpec(b, cb) == ExplicitHeight(BlockChildren(b, d));
    BlockRunExtent(b, d, |b.children|);
  }

  /** An inline box is one line high, placed after the content of its containing block so
      far, and as wide as its horizontal padding, its children's margin boxes and its text. */
  lemma InlineSize(b: LayoutBox, cb: Dimensions)
    requires b.boxType.InlineNode?
    ensures var r := LayoutSpec(b, cb);
            var text := TextOf(b.boxType.style.node);
            r.dimensions.borderBox.height == 1 &&
            r.dimensions.borderBox.y == ContentBox(cb).y + ContentBox(cb).height &&
            r.dimensions.borderBox.width ==
              r.dimensions.padding.left + r.dimensions.padding.right + SumWidths(r.children) +
              (if text.Some? then |text.value| else 0)
  {
    var d := ChildrenDims(b, cb);
    assert LayoutSpec(b, cb) == TextWidth(InlineChildren(b, d));
    InlineRunExtent(b, d, |b.children|);
  }

  /** An anonymous box takes its containing block's dimensions, widened by its children. */
  lemma AnonymousSpan(b: LayoutBox, cb: Dimensions)
    requires b.boxType.Anonymous?
    ensures var r := LayoutSpec(b, cb);
            r.dimensions == AddWidth(cb, SumWidths(r.children))
  {
    InlineRunExtent(b, cb, |b.children|);
  }

  /** Growing a block whose height so far is its vertical padding leaves its content where
      it starts, and makes it as high as the growth less the vertical borders. */
  lemma GrownContent(d: Dimensions, h: int)
    requires d.borderBox.height == d.padding.top + d.padding.bottom
    requires d.padding.top >= 0 && d.padding.bottom >= 0
    ensures ContentBox(AddHeight(d, h)).y == ContentBox(d).y
    ensures ContentBox(AddHeight(d, h)).height == Max(h - Size(d.border.top) - Size(d.border.bottom), 0)
  {
  }

  /** Moving a box right moves its content by as much, and nothing else. */
  lemma ShiftedContent(d: Dimensions, dx: int)
    ensures ContentBox(ShiftX(d, dx)) == ContentBox(d).(x := ContentBox(d).x + dx)
  {
  }

  /** A block child in a block run starts right below the content laid out before it. */
  lemma BlockRunChildTop(b: LayoutBox, d: Dimensions, k: nat)
    requires k < |b.children| && b.children[k].boxType.BlockNode?
    ensures var cs := BlockRun(b, d, |b.children|).children;
            var dk := AddHeight(d, SumHeights(cs[..k]));
            MarginBox(cs[k].dimensions).y == ContentBox(dk).y + ContentBox(dk).height
  {
    var cs := BlockRun(b, d, |b.children|).children;
    BlockRunChild(b, d, k);
    BlockPlacement(b.children[k], AddHeight(d, SumHeights(cs[..k])));
  }

  /** Child `k` of `r` starts below the margin boxes of the children before it, less `r`'s
      vertical borders, measured from the top of `r`'s content box. */
  predicate StartsBelowEarlier(r: LayoutBox, k: nat)
    requires k < |r.children|
  {
    MarginBox(r.children[k].dimensions).y ==
      ContentBox(r.dimensions).y +
      Max(SumHeights(r.children[..k]) - Size(r.dimensions.border.top) - Size(r.dimensions.border.bottom), 0)
  }

  /** A child of `r` placed as `BlockRunChildTop` says in `d`, seen from `r`'s own
      dimensions, which differ from `d` at most in height. */
  lemma ChildTop(r: LayoutBox, d: Dimensions, cs: seq<LayoutBox>, k: nat)
    requires r.children == cs && k < |cs|
    requires r.dimensions.borderBox.y == d.borderBox.y && r.dimensions.border == d.border
    requires r.dimensions.padding == d.padding
    requires d.borderBox.height == d.padding.top + d.padding.bottom
    requires d.padding.top >= 0 && d.padding.bottom >= 0
    requires var dk := AddHeight(d, SumHeights(cs[..k]));
             MarginBox(cs[k].dimensions).y == ContentBox(dk).y + ContentBox(dk).height
    ensures StartsBelowEarlier(r, k)
  {
    GrownContent(d, SumHeights(r.children[..k]));
    ContentOrigin(r.dimensions);
    ContentOrigin(d);
  }

  /** A block child of a block starts below the margin boxes of the children before it,
      less the parent's vertical borders: the parent's height counts its padding but its
      content box also leaves out its borders. */
  lemma BlockChildTop(b: LayoutBox, cb: Dimensions, k: nat)
    requires b.boxType.BlockNode? && k < |b.children| && b.children[k].boxType.BlockNode?
    requires LayoutSpec(b, cb).dimensions.padding.top >= 0 && LayoutSpec(b, cb).dimensions.padding.bottom >= 0
    ensures StartsBelowEarlier(LayoutSpec(b, cb), k)
  {
    var r := LayoutSpec(b, cb);
    var d := ChildrenDims(b, cb);
    LaidOutChildren(b, cb);
    BlockRunChildTop(b, d, k);
    ChildTop(r, d, BlockRun(b, d, |b.children|).children, k);
  }

  /** The arithmetic of two consecutive block children's tops. */
  lemma ConsecutiveTops(top: int, before: int, after: int, h: int, bt: int, bb: int, y0: int, y1: int)
    requires y0 == top + Max(before - bt - bb, 0)
    requires y1 == top + Max(after - bt - bb, 0)
    requires after == before + h && before - bt - bb >= 0 && h >= 0
    ensures y1 == y0 + h
  {
  }

  /** The same for the first two children under a one-character top border. */
  lemma OverlappingTops(top: int, before: int, after: int, h: int, bt: int, bb: int, y0: int, y1: int)
    requires y0 == top + Max(before - bt - bb, 0)
    requires y1 == top + Max(after - bt - bb, 0)
    requires after == before + h && before == 0 && bt == 1 && bb == 0 && h >= 1
    ensures y1 == y0 + h - 1
  {
  }

  /** Two children placed as `BlockRunChildTop` says, in a parent without vertical borders,
      touch. */
  lemma StackStep(cs: seq<LayoutBox>, d: Dimensions, k: nat)
    requires k + 1 < |cs|
    requires d.borderBox.height == d.padding.top + d.padding.bottom
    requires d.padding.top >= 0 && d.padding.bottom >= 0
    requires d.border.top == Border.None && d.border.bottom == Border.None
    requires SumHeights(cs[..k]) >= 0 && MarginBox(cs[k].dimensions).height >= 0
    requires var dk := AddHeight(d, SumHeights(cs[..k]));
             MarginBox(cs[k].dimensions).y == ContentBox(dk).y + ContentBox(dk).height
    requires var dk := AddHeight(d, SumHeights(cs[..k + 1]));
             MarginBox(cs[k + 1].dimensions).y == ContentBox(dk).y + ContentBox(dk).height
    ensures MarginBox(cs[k + 1].dimensions).y == MarginBox(cs[k].dimensions).y + MarginBox(cs[k].dimensions).height
  {
    GrownContent(d, SumHeights(cs[..k]));
    GrownContent(d, SumHeights(cs[..k + 1]));
    SumsPrefixStep(cs, k);
    ConsecutiveTops(ContentBox(d).y, SumHeights(cs[..k]), SumHeights(cs[..k + 1]),
      MarginBox(cs[k].dimensions).height, Size(d.border.top), Size(d.border.bottom),
      MarginBox(cs[k].dimensions).y, MarginBox(cs[k + 1].dimensions).y);
  }

  /** The first two children placed as `BlockRunChildTop` says, under a top border and no
      bottom border, overlap by a line. */
  lemma OverlapStep(cs: seq<LayoutBox>, d: Dimensions)
    requires 2 <= |cs|
    requires d.borderBox.height == d.padding.top + d.padding.bottom
    requires d.padding.top >= 0 && d.padding.bottom >= 0
    requires d.border.top != Border.None && d.border.bottom == Border.None
    requires MarginBox(cs[0].dimensions).height >= 1
    requires var dk := AddHeight(d, SumHeights(cs[..0]));
             MarginBox(cs[0].dimensions).y == ContentBox(dk).y + ContentBox(dk).height
    requires var dk := AddHeight(d, SumHeights(cs[..1]));
             MarginBox(cs[1].dimensions).y == ContentBox(dk).y + ContentBox(dk).height
    ensures MarginBox(cs[1].dimensions).y == MarginBox(cs[0].dimensions).y + MarginBox(cs[0].dimensions).height - 1
  {
    assert cs[..0] == [];
    GrownContent(d, 0);
    GrownContent(d, SumHeights(cs[..1]));
    SumsPrefixStep(cs, 0);
    OverlappingTops(ContentBox(d).y, SumHeights(cs[..0]), SumHeights(cs[..1]),
      MarginBox(cs[0].dimensions).height, Size(d.border.top), Size(d.border.bottom),
      MarginBox(cs[0].dimensions).y, MarginBox(cs[1].dimensions).y);
  }

  /** With no vertical borders on the parent, each block child starts where the margin box
      of the one before it ends. */
  lemma BlocksStack(b: LayoutBox, d: Dimensions, k: nat)
    requires k + 1 < |b.children|
    requires b.children[k].boxType.BlockNode? && b.children[k + 1].boxType.BlockNode?
    requires d.borderBox.height == d.padding.top + d.padding.bottom
    requires d.padding.top >= 0 && d.padding.bottom >= 0
    requires d.border.top == Border.None && d.border.bottom == Border.None
    requires var cs := BlockRun(b, d, |b.children|).children;
             SumHeights(cs[..k]) >= 0 && MarginBox(cs[k].dimensions).height >= 0
    ensures var cs := BlockRun(b, d, |b.children|).children;
            MarginBox(cs[k + 1].dimensions).y == MarginBox(cs[k].dimensions).y + MarginBox(cs[k].dimensions).height
  {
    var cs := BlockRun(b, d, |b.children|).children;
    BlockRunChildTop(b, d, k);
    BlockRunChildTop(b, d, k + 1);
    StackStep(cs, d, k);
  }

  /** A top border on the parent makes its second block child overlap the first by a line. */
  lemma BorderedParentOverlap(b: LayoutBox, d: Dimensions)
    requires 2 <= |b.children|
    requires b.children[0].boxType.BlockNode? && b.children[1].boxType.BlockNode?
    requires d.borderBox.height == d.padding.top + d.padding.bottom
    requires d.padding.top >= 0 && d.padding.bottom >= 0
    requires d.border.top != Border.None && d.border.bottom == Border.None
    requires MarginBox(BlockRun(b, d, |b.children|).children[0].dimensions).height >= 1
    ensures var cs := BlockRun(b, d, |b.children|).children;
            MarginBox(cs[1].dimensions).y == MarginBox(cs[0].dimensions).y + MarginBox(cs[0].dimensions).height - 1
  {
    var cs := BlockRun(b, d, |b.children|).children;
    BlockRunChildTop(b, d, 0);
    BlockRunChildTop(b, d, 1);
    OverlapStep(cs, d);
  }

  /** In an inline or anonymous box, a block or inline child starts right of the margin
      boxes of the children before it. */
  lemma InlineChildLeft(b: LayoutBox, cb: Dimensions, k: nat)
    requires !b.boxType.BlockNode? && k < |b.children| && !b.children[k].boxType.Anonymous?
    ensures var r := LayoutSpec(b, cb);
            MarginBox(r.children[k].dimensions).x == ContentBox(r.dimensions).x + SumWidths(r.children[..k])
  {
    LaidOutChildren(b, cb);
    var d := ChildrenDims(b, cb);
    var cs := InlineRun(b, d, |b.children|).children;
    InlineRunChild(b, d, k);
    LeftEdge(b.children[k], ShiftX(d, SumWidths(cs[..k])));
    ShiftedContent(d, SumWidths(cs[..k]));
  }

  /** Such children sit side by side, each starting where the one before it ends. */
  lemma InlineChildrenAdjacent(b: LayoutBox, cb: Dimensions, k: nat)
    requires !b.boxType.BlockNode? && k + 1 < |b.children|
    requires !b.children[k].boxType.Anonymous? && !b.children[k + 1].boxType.Anonymous?
    ensures var r := LayoutSpec(b, cb);
            MarginBox(r.children[k + 1].dimensions).x ==
              MarginBox(r.children[k].dimensions).x + MarginBox(r.children[k].dimensions).width
  {
    var r := LayoutSpec(b, cb);
    InlineChildLeft(b, cb, k);
    InlineChildLeft(b, cb, k + 1);
    SumsPrefixStep(r.children, k);
  }

  /** The inline children of an inline or anonymous box all sit on one line: the one right
      after the content of the box so far. */
  lemma InlineChildrenShareLine(b: LayoutBox, cb: Dimensions, k: nat)
    requires !b.boxType.BlockNode? && k < |b.children| && b.children[k].boxType.InlineNode?
    ensures var r := LayoutSpec(b, cb);
            r.children[k].dimensions.borderBox.y == ContentBox(r.dimensions).y + ContentBox(r.dimensions).height
  {
    LaidOutChildren(b, cb);
    var d := ChildrenDims(b, cb);
    var cs := InlineRun(b, d, |b.children|).children;
    InlineRunChild(b, d, k);
    InlineSize(b.children[k], ShiftX(d, SumWidths(cs[..k])));
    ShiftedContent(d, SumWidths(cs[..k]));
  }
}
