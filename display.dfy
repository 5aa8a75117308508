/** The display list and the character canvas it is painted on (src/display.rs). */
module Display {
  import opened Style
  import opened BoxModel
  import opened LayoutTree

  /** A command draws a background or a border around a rectangle. */
  datatype DisplayCommand = FilledBox(rect: Rect, bg: char) | BorderBox(rect: Rect, edges: EdgeSizes)

  /** The sixteen background characters, used in turn (U+1FB20 to U+1FB2F). */
  const Palette: seq<char> :=
    "\U{1FB20}\U{1FB21}\U{1FB22}\U{1FB23}\U{1FB24}\U{1FB25}\U{1FB26}\U{1FB27}" +
    "\U{1FB28}\U{1FB29}\U{1FB2A}\U{1FB2B}\U{1FB2C}\U{1FB2D}\U{1FB2E}\U{1FB2F}"

  /** What a fresh canvas holds in every cell. */
  const Blank: char := '⋅'

  // ---------------------------------------------------------------------------------------
  // The display list
  // ---------------------------------------------------------------------------------------

  /** The two commands one box gets when it is the `n`-th box drawn: its content box filled
      with the next background character, then its borders around it. */
  function Commands(b: LayoutBox, n: nat): (cs: seq<DisplayCommand>)
    ensures |cs| == 2
  {
    [FilledBox(ContentBox(b.dimensions), Palette[n % |Palette|]),
     BorderBox(ContentBox(b.dimensions), Sizes(b.dimensions.border))]
  }

  /** The boxes of a tree, each before its children, children in order. */
  function Preorder(b: LayoutBox): (bs: seq<LayoutBox>)
    ensures |bs| >= 1 && bs[0] == b
    decreases b, 1
  {
    [b] + PreorderFrom(b, 0)
  }

  /** The boxes of the subtrees of `b`'s children from the `j`-th on. */
  function PreorderFrom(b: LayoutBox, j: nat): seq<LayoutBox>
    requires j <= |b.children|
    decreases b, 0, |b.children| - j
  {
    if j == |b.children| then [] else Preorder(b.children[j]) + PreorderFrom(b, j + 1)
  }

  /** `render_layout_box` from background number `n`: the box's commands, then each
      child's, numbering on where the previous child stopped. */
  function Render(b: LayoutBox, n: nat): seq<DisplayCommand>
    decreases b, 1
  {
    Commands(b, n) + RenderFrom(b, 0, n + 1)
  }

  function RenderFrom(b: LayoutBox, j: nat, n: nat): seq<DisplayCommand>
    requires j <= |b.children|
    decreases b, 0, |b.children| - j
  {
    if j == |b.children| then []
    else Render(b.children[j], n) + RenderFrom(b, j + 1, n + |Preorder(b.children[j])|)
  }

  /** The commands of a list of boxes drawn one after the other from number `n`. */
  function Flat(bs: seq<LayoutBox>, n: nat): (cs: seq<DisplayCommand>)
    ensures |cs| == 2 * |bs|
  {
    if bs == [] then [] else Commands(bs[0], n) + Flat(bs[1..], n + 1)
  }

  lemma {:induction false} FlatAppend(xs: seq<LayoutBox>, ys: seq<LayoutBox>, n: nat)
    ensures Flat(xs + ys, n) == Flat(xs, n) + Flat(ys, n + |xs|)
  {
    if xs != [] {
      assert (xs + ys)[1..] == xs[1..] + ys;
      FlatAppend(xs[1..], ys, n + 1);
    } else {
      assert xs + ys == ys;
    }
  }

  lemma {:induction false} RenderIsFlat(b: LayoutBox, n: nat)
    ensures Render(b, n) == Flat(Preorder(b), n)
    decreases b, 1
  {
    RenderFromIsFlat(b, 0, n + 1);
    assert Preorder(b)[1..] == PreorderFrom(b, 0);
  }

  lemma {:induction false} RenderFromIsFlat(b: LayoutBox, j: nat, n: nat)
    requires j <= |b.children|
    ensures RenderFrom(b, j, n) == Flat(PreorderFrom(b, j), n)
    decreases b, 0, |b.children| - j
  {
    if j < |b.children| {
      var c := b.children[j];
      RenderIsFlat(c, n);
      RenderFromIsFlat(b, j + 1, n + |Preorder(c)|);
      FlatAppend(Preorder(c), PreorderFrom(b, j + 1), n);
    }
  }

  lemma {:induction false} FlatIndex(bs: seq<LayoutBox>, n: nat, k: nat)
    requires k < |bs|
    ensures Flat(bs, n)[2 * k] == FilledBox(ContentBox(bs[k].dimensions), Palette[(n + k) % 16])
    ensures Flat(bs, n)[2 * k + 1] == BorderBox(ContentBox(bs[k].dimensions), Sizes(bs[k].dimensions.border))
  {
    if k > 0 {
      FlatIndex(bs[1..], n + 1, k - 1);
    }
  }

  /** The display list holds two commands per box, the boxes taken before their children,
      the `k`-th box filled with background `k` modulo 16 and then bordered. Later commands
      paint over earlier ones, so children are drawn over their parents. */
  lemma DisplayListOrder(root: LayoutBox, k: nat)
    requires k < |Preorder(root)|
    ensures |Render(root, 0)| == 2 * |Preorder(root)|
    ensures var b := Preorder(root)[k];
            Render(root, 0)[2 * k] == FilledBox(ContentBox(b.dimensions), Palette[k % 16]) &&
            Render(root, 0)[2 * k + 1] == BorderBox(ContentBox(b.dimensions), Sizes(b.dimensions.border))
  {
    var bs := Preorder(root);
    RenderIsFlat(root, 0);
    assert Render(root, 0) == Flat(bs, 0);
    FlatIndex(bs, 0, k);
    assert 0 + k == k;
  }

  /** `render_layout_box`: appends the box's commands and its children's to `list`, and
      gives back the next background number. */
  method RenderLayoutBox(list: seq<DisplayCommand>, b: LayoutBox, n: nat)
    returns (list': seq<DisplayCommand>, n': nat)
    ensures list' == list + Render(b, n)
    ensures n' == n + |Preorder(b)|
    decreases b
  {
    var d := b.dimensions;
    var bg := Palette[n % |Palette|];
    list' := list + [FilledBox(ContentBox(d), bg)];
    list' := list' + [BorderBox(ContentBox(d), Sizes(d.border))];
    n' := n + 1;
    for j := 0 to |b.children|
      invariant list' + RenderFrom(b, j, n') == list + Render(b, n)
      invariant n' + |PreorderFrom(b, j)| == n + |Preorder(b)|
    {
      list', n' := RenderLayoutBox(list', b.children[j], n');
    }
  }

  /** `build_display_list`. */
  method BuildDisplayList(root: LayoutBox) returns (list: seq<DisplayCommand>)
    ensures list == Render(root, 0)
  {
    var n;
    list, n := RenderLayoutBox([], root, 0);
  }

  // ---------------------------------------------------------------------------------------
  // Painting
  // ---------------------------------------------------------------------------------------

  /** `clamp_x` and `clamp_y`: a coordinate pulled into `0 .. size - 1`. */
  function Clamp(v: int, size: nat): (r: int)
    ensures size > 0 ==> 0 <= r < size
    ensures 0 <= v < size ==> r == v
    ensures v < 0 ==> r == 0
    ensures v >= size ==> r == size - 1
  {
    if v < 0 then 0 else if v >= size then size - 1 else v
  }

  /** The cells a command writes and what it writes there, for a canvas of the given size.
      A background covers the clamped rectangle, whose far edges are exclusive; a border
      writes `-` in the rows just above and below it and `|` in the columns just left and
      right of it, and never the corners. */
  function CellAfter(item: DisplayCommand, width: nat, height: nat, old_: char, y: int, x: int): (c: char)
    ensures c == old_ || (item.FilledBox? && c == item.bg) || (item.BorderBox? && (c == '-' || c == '|'))
  {
    var x0 := Clamp(item.rect.x, width);
    var x1 := Clamp(item.rect.x + item.rect.width, width);
    var y0 := Clamp(item.rect.y, height);
    var y1 := Clamp(item.rect.y + item.rect.height, height);
    match item
    case FilledBox(_, bg) => if y0 <= y < y1 && x0 <= x < x1 then bg else old_
    case BorderBox(_, e) =>
      if x0 <= x < x1 && (y0 - e.top <= y < y0 || y1 <= y < y1 + e.bottom) then '-'
      else if y0 <= y < y1 && (x1 <= x < x1 + e.right || x0 - e.left <= x < x0) then '|'
      else old_
  }

  /** A nested loop over rows `y0 .. y1` and columns `x0 .. x1` stays on the canvas: either
      one of the ranges is empty, so nothing is written, or every cell is a valid index (the
      source indexes out of range, and panics, otherwise). */
  predicate InBounds(y0: int, y1: int, x0: int, x1: int, width: nat, height: nat)
  {
    y0 < y1 && x0 < x1 ==> 0 <= y0 && y1 <= height && 0 <= x0 && x1 <= width
  }

  /** `paint_item` runs without indexing out of range: the background's loop, or each of the
      border's four stroke loops, stays on the canvas. */
  predicate Paintable(item: DisplayCommand, width: nat, height: nat)
  {
    var x0 := Clamp(item.rect.x, width);
    var x1 := Clamp(item.rect.x + item.rect.width, width);
    var y0 := Clamp(item.rect.y, height);
    var y1 := Clamp(item.rect.y + item.rect.height, height);
    match item
    case FilledBox(_, _) => InBounds(y0, y1, x0, x1, width, height)
    case BorderBox(_, e) =>
      InBounds(y0 - e.top, y0, x0, x1, width, height) &&
      InBounds(y0, y1, x1, x1 + e.right, width, height) &&
      InBounds(y1, y1 + e.bottom, x0, x1, width, height) &&
      InBounds(y0, y1, x0 - e.left, x0, width, height)
  }

  /** On a canvas with at least one cell, a background can always be painted: clamping keeps
      both of its ranges on the canvas. */
  lemma FillPaintable(rect: Rect, bg: char, width: nat, height: nat)
    requires width > 0 && height > 0
    ensures Paintable(FilledBox(rect, bg), width, height)
  {
  }

  /** On a canvas with no cells, clamping maps a coordinate to 0 or -1, so a command whose
      rectangle has a non-negative size writes nothing and is paintable; a background of
      negative size is not. */
  lemma EmptyCanvasPaintable(item: DisplayCommand)
    ensures item.rect.width >= 0 && item.rect.height >= 0 ==> Paintable(item, 0, 0)
    ensures (item.FilledBox? && item.rect.x >= 0 && item.rect.x + item.rect.width < 0 &&
             item.rect.y >= 0 && item.rect.y + item.rect.height < 0) ==> !Paintable(item, 0, 0)
  {
  }

  /** A background never reaches the last column or the last row of the canvas, since the
      clamped far edge is exclusive. */
  lemma FillMissesLastColumnAndRow(rect: Rect, bg: char, width: nat, height: nat, old_: char, y: int, x: int)
    requires width > 0 && height > 0 && (x == width - 1 || y == height - 1)
    ensures CellAfter(FilledBox(rect, bg), width, height, old_, y, x) == old_
  {
  }

  /** A border leaves the four corner cells around its rectangle as they were. */
  lemma BorderSkipsCorners(rect: Rect, e: EdgeSizes, width: nat, height: nat, old_: char, y: int, x: int)
    requires var x0 := Clamp(rect.x, width);
             var x1 := Clamp(rect.x + rect.width, width);
             var y0 := Clamp(rect.y, height);
             var y1 := Clamp(rect.y + rect.height, height);
             (y < y0 || y >= y1) && (x < x0 || x >= x1)
    ensures CellAfter(BorderBox(rect, e), width, height, old_, y, x) == old_
  {
  }

  /** A command with a rectangle inside the canvas fills exactly that rectangle. */
  lemma FillInsideCanvas(rect: Rect, bg: char, width: nat, height: nat, old_: char, y: int, x: int)
    requires 0 <= rect.x && rect.x + rect.width < width && 0 <= rect.width
    requires 0 <= rect.y && rect.y + rect.height < height && 0 <= rect.height
    ensures CellAfter(FilledBox(rect, bg), width, height, old_, y, x) ==
              if rect.y <= y < rect.y + rect.height && rect.x <= x < rect.x + rect.width then bg else old_
  {
  }

  /** A cell after a whole list of commands, each painted over the ones before it. */
  function CellAfterAll(list: seq<DisplayCommand>, width: nat, height: nat, old_: char, y: int, x: int): char
  {
    if list == [] then old_
    else CellAfter(list[|list| - 1], width, height, CellAfterAll(list[..|list| - 1], width, height, old_, y, x), y, x)
  }

  /** The last command that writes a cell decides it. */
  lemma {:induction false} LastWriterWins(list: seq<DisplayCommand>, width: nat, height: nat, old_: char, y: int, x: int, k: nat)
    requires k < |list|
    requires forall j :: k < j < |list| ==> forall c :: CellAfter(list[j], width, height, c, y, x) == c
    ensures CellAfterAll(list, width, height, old_, y, x) ==
              CellAfter(list[k], width, height, CellAfterAll(list[..k], width, height, old_, y, x), y, x)
    decreases |list|
  {
    if k < |list| - 1 {
      var init := list[..|list| - 1];
      assert init[..k] == list[..k];
      LastWriterWins(init, width, height, old_, y, x, k);
    }
  }

  class DebugCanvas {
    const width: nat
    const height: nat
    /** Row `y`, column `x` is `data[y, x]`. */
    const data: array2<char>

    predicate Valid()
      reads this
    {
      data.Length0 == height && data.Length1 == width
    }

    /** `DebugCanvas::new`: every cell blank. */
    constructor (width: nat, height: nat)
      ensures Valid() && this.width == width && this.height == height && fresh(data)
      ensures forall y, x :: 0 <= y < height && 0 <= x < width ==> data[y, x] == Blank
    {
      this.width := width;
      this.height := height;
      data := new char[height, width]((y, x) => Blank);
    }

    /** Writes `ch` into rows `y0 .. y1` and columns `x0 .. x1`, as the source's nested
        loops do. */
    method FillRect(y0: int, y1: int, x0: int, x1: int, ch: char)
      requires Valid()
      requires InBounds(y0, y1, x0, x1, width, height)
      modifies data
      ensures forall y, x :: 0 <= y < height && 0 <= x < width ==>
                data[y, x] == if y0 <= y < y1 && x0 <= x < x1 then ch else old(data[y, x])
    {
      var y := y0;
      while y < y1
        invariant y == y0 || y0 < y <= y1
        invariant forall r, c :: 0 <= r < height && 0 <= c < width ==>
                    data[r, c] == if y0 <= r < y && x0 <= c < x1 then ch else old(data[r, c])
      {
        var x := x0;
        while x < x1
          invariant x == x0 || x0 < x <= x1
          invariant forall r, c :: 0 <= r < height && 0 <= c < width ==>
                      data[r, c] == if (y0 <= r < y && x0 <= c < x1) || (r == y && x0 <= c < x) then ch else old(data[r, c])
        {
          data[y, x] := ch;
          x := x + 1;
        }
        y := y + 1;
      }
    }

    /** `paint_item`. */
    method PaintItem(item: DisplayCommand)
      requires Valid() && Paintable(item, width, height)
      modifies data
      ensures forall y, x :: 0 <= y < height && 0 <= x < width ==>
                data[y, x] == CellAfter(item, width, height, old(data[y, x]), y, x)
    {
      var x0 := Clamp(item.rect.x, width);
      var x1 := Clamp(item.rect.x + item.rect.width, width);
      var y0 := Clamp(item.rect.y, height);
      var y1 := Clamp(item.rect.y + item.rect.height, height);
      match item
      case FilledBox(_, bg) =>
        FillRect(y0, y1, x0, x1, bg);
      case BorderBox(_, e) =>
        FillRect(y0 - e.top, y0, x0, x1, '-');
        FillRect(y0, y1, x1, x1 + e.right, '|');
        FillRect(y1, y1 + e.bottom, x0, x1, '-');
        FillRect(y0, y1, x0 - e.left, x0, '|');
    }

    /** `paint`: the commands in order. */
    method Paint(list: seq<DisplayCommand>)
      requires Valid() && forall i :: 0 <= i < |list| ==> Paintable(list[i], width, height)
      modifies data
      ensures forall y, x :: 0 <= y < height && 0 <= x < width ==>
                data[y, x] == CellAfterAll(list, width, height, old(data[y, x]), y, x)
    {
      for i := 0 to |list|
        invariant forall y, x :: 0 <= y < height && 0 <= x < width ==>
                    data[y, x] == CellAfterAll(list[..i], width, height, old(data[y, x]), y, x)
      {
        PaintItem(list[i]);
        assert list[..i + 1][..i] == list[..i];
      }
      assert list[..|list|] == list;
    }
  }
}
