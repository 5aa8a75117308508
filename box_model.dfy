/** Box geometry (src/layout.rs, the `Dimensions`, `Rect`, `EdgeSizes` and `Borders`
    types): a box is stored as its border box, and the other boxes are derived from it. */
module BoxModel {
  import opened Style

  datatype Rect = Rect(x: int, y: int, width: int, height: int)

  datatype EdgeSizes = EdgeSizes(left: int, right: int, top: int, bottom: int)

  datatype Borders = Borders(left: Border, right: Border, top: Border, bottom: Border)

  datatype Dimensions = Dimensions(borderBox: Rect, padding: EdgeSizes, border: Borders, margin: EdgeSizes)

  /** `Default` for each type: zeros, and no borders. */
  const ZeroRect := Rect(0, 0, 0, 0)
  const ZeroEdges := EdgeSizes(0, 0, 0, 0)
  const NoBorders := Borders(Border.None, Border.None, Border.None, Border.None)
  const DefaultDimensions := Dimensions(ZeroRect, ZeroEdges, NoBorders, ZeroEdges)

  /** `Borders::sizes`: each side one character when drawn, none otherwise. */
  function Sizes(b: Borders): (e: EdgeSizes)
    ensures 0 <= e.left <= 1 && 0 <= e.right <= 1 && 0 <= e.top <= 1 && 0 <= e.bottom <= 1
    ensures e.left == 0 <==> b.left == Border.None
    ensures e.right == 0 <==> b.right == Border.None
    ensures e.top == 0 <==> b.top == Border.None
    ensures e.bottom == 0 <==> b.bottom == Border.None
  {
    EdgeSizes(Size(b.left), Size(b.right), Size(b.top), Size(b.bottom))
  }

  function Max(a: int, b: int): int { if a < b then b else a }

  /** `Rect::expanded_by`: grow outwards by the edges on every side. */
  function ExpandedBy(r: Rect, e: EdgeSizes): (o: Rect)
    ensures o.x == r.x - e.left && o.y == r.y - e.top
    ensures o.x + o.width == r.x + r.width + e.right
    ensures o.y + o.height == r.y + r.height + e.bottom
  {
    Rect(r.x - e.left, r.y - e.top, r.width + e.left + e.right, r.height + e.top + e.bottom)
  }

  /** `Rect::contracted_by`: shrink inwards by the edges, never below zero width or height. */
  function ContractedBy(r: Rect, e: EdgeSizes): (i: Rect)
    ensures i.width >= 0 && i.height >= 0
    ensures i.x == r.x + e.left && i.y == r.y + e.top
  {
    Rect(r.x + e.left, r.y + e.top, Max(r.width - e.left - e.right, 0), Max(r.height - e.top - e.bottom, 0))
  }

  /** Contracting undoes expanding, for a box of non-negative size. */
  lemma ContractUndoesExpand(r: Rect, e: EdgeSizes)
    requires r.width >= 0 && r.height >= 0
    ensures ContractedBy(ExpandedBy(r, e), e) == r
  {
  }

  /** Expanding undoes contracting when the box is at least as large as its edges. */
  lemma ExpandUndoesContract(r: Rect, e: EdgeSizes)
    requires r.width >= e.left + e.right && r.height >= e.top + e.bottom
    ensures ExpandedBy(ContractedBy(r, e), e) == r
  {
  }

  /** A box too small for its edges contracts to nothing, so expanding cannot restore it. */
  lemma ContractClamps(r: Rect, e: EdgeSizes)
    requires r.width < e.left + e.right
    ensures ContractedBy(r, e).width == 0
    ensures ExpandedBy(ContractedBy(r, e), e).width != r.width
  {
  }

  /** `Dimensions::margin_box`. */
  function MarginBox(d: Dimensions): (m: Rect)
    ensures m.x == d.borderBox.x - d.margin.left && m.y == d.borderBox.y - d.margin.top
    ensures m.width == d.margin.left + d.borderBox.width + d.margin.right
    ensures m.height == d.margin.top + d.borderBox.height + d.margin.bottom
  {
    ExpandedBy(d.borderBox, d.margin)
  }

  /** `Dimensions::padding_box`. */
  function PaddingBox(d: Dimensions): (p: Rect)
    ensures p.x == d.borderBox.x + Size(d.border.left) && p.y == d.borderBox.y + Size(d.border.top)
    ensures p.width == Max(d.borderBox.width - Size(d.border.left) - Size(d.border.right), 0)
    ensures p.height == Max(d.borderBox.height - Size(d.border.top) - Size(d.border.bottom), 0)
  {
    ContractedBy(d.borderBox, Sizes(d.border))
  }

  /** `Dimensions::content_box`. */
  function ContentBox(d: Dimensions): (c: Rect)
    ensures c.x == PaddingBox(d).x + d.padding.left && c.y == PaddingBox(d).y + d.padding.top
    ensures c.width == Max(PaddingBox(d).width - d.padding.left - d.padding.right, 0)
    ensures c.height == Max(PaddingBox(d).height - d.padding.top - d.padding.bottom, 0)
  {
    ContractedBy(PaddingBox(d), d.padding)
  }

  /** The widths of the boxes: the margin box adds both margins, and each inner box takes
      the border and the padding off the one around it, stopping at zero. */
  lemma BoxWidths(d: Dimensions)
    ensures MarginBox(d).width == d.margin.left + d.borderBox.width + d.margin.right
    ensures PaddingBox(d).width == Max(d.borderBox.width - Size(d.border.left) - Size(d.border.right), 0)
    ensures ContentBox(d).width == Max(PaddingBox(d).width - d.padding.left - d.padding.right, 0)
  {
  }

  /** Where the content starts: past the left and top border and padding. */
  lemma ContentOrigin(d: Dimensions)
    ensures ContentBox(d).x == d.borderBox.x + Size(d.border.left) + d.padding.left
    ensures ContentBox(d).y == d.borderBox.y + Size(d.border.top) + d.padding.top
  {
  }

  /** With non-negative padding and margins, the boxes nest: content inside padding inside
      border inside margin. */
  predicate Inside(inner: Rect, outer: Rect)
  {
    outer.x <= inner.x && inner.x + inner.width <= outer.x + outer.width &&
    outer.y <= inner.y && inner.y + inner.height <= outer.y + outer.height
  }

  lemma BoxesNest(d: Dimensions)
    requires d.borderBox.width >= Size(d.border.left) + Size(d.border.right) + d.padding.left + d.padding.right
    requires d.borderBox.height >= Size(d.border.top) + Size(d.border.bottom) + d.padding.top + d.padding.bottom
    requires d.padding.left >= 0 && d.padding.right >= 0 && d.padding.top >= 0 && d.padding.bottom >= 0
    requires d.margin.left >= 0 && d.margin.right >= 0 && d.margin.top >= 0 && d.margin.bottom >= 0
    ensures Inside(ContentBox(d), PaddingBox(d))
    ensures Inside(PaddingBox(d), d.borderBox)
    ensures Inside(d.borderBox, MarginBox(d))
  {
  }
}
