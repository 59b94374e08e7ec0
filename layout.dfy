/** The carousel's layout pass (`CarouselWindow::update`): which face of each
    item is shown, how far apart the items are, and where each shown face is
    placed. */
module CarouselLayout {
  import opened CoordMath

  /** One window of an item as the layout pass sees it: its size (owned by the
      widget framework), whether it is attached to the carousel as a child,
      and its position inside the carousel. */
  datatype Face = Face(width: int, height: int, attached: bool, left: int, top: int)

  /** A carousel entry: `front` is the expanded face shown for the selected
      item, `back` the collapsed face shown for every other item. */
  datatype Item = Item(front: Face, back: Face)

  /** Gap between items when the carousel cannot derive one. */
  const DefaultSpacing := 10

  /** The face an item shows: the front one exactly when it is selected. */
  function Shown(item: Item, selected: bool): Face
  {
    if selected then item.front else item.back
  }

  /** The face an item hides. */
  function Hidden(item: Item, selected: bool): Face
  {
    if selected then item.back else item.front
  }

  /** The layout never resizes a window. */
  predicate SameSizes(a: Item, b: Item)
  {
    a.front.width == b.front.width && a.front.height == b.front.height &&
    a.back.width == b.back.width && a.back.height == b.back.height
  }

  /** A face is centred vertically in a container of height `containerHeight`
      with C++ rounding: the margin below it exceeds the one above it by zero
      or one unit when it fits, and falls short by zero or one unit when it
      overhangs. */
  predicate Centred(f: Face, containerHeight: int)
  {
    var slack := (containerHeight - f.height - f.top) - f.top;
    if containerHeight >= f.height then 0 <= slack <= 1 else -1 <= slack <= 0
  }

  /** Anchor of the scroll window that `update` computes from the selection and
      the number of visible slots: never negative, otherwise the smaller of
      `selection - 2` and `size - count`. Nothing in the layout reads it. */
  ghost function WindowAnchor(selection: int, size: int, count: int): (r: int)
    ensures r >= 0
    ensures r > 0 ==> r <= selection - 2 && r <= size - count && (r == selection - 2 || r == size - count)
    ensures r == 0 ==> selection - 2 <= 0 || size - count <= 0
  {
    var first := if selection - 2 < size - count then selection - 2 else size - count;
    if first < 0 then 0 else first
  }

  /** Gap between consecutive items: the default when there are no items or
      no positive slot count, otherwise derived from the container width and
      the first item's face widths (see SpacingFillsWidth). The source divides
      by `count - 1`, so it needs `count != 1` whenever there are items. */
  function Spacing(items: seq<Item>, count: int, width: int): (r: int)
    requires items == [] || count != 1
    ensures items == [] || count <= 0 ==> r == DefaultSpacing
  {
    if items != [] && count > 0 then
      TruncDiv(width - items[0].back.width * (count - 1) - items[0].front.width, count - 1)
    else
      DefaultSpacing
  }

  /** The derived gap is chosen so that one front face and `count - 1` back
      faces of the first item's sizes, with the gap after each back face, fill
      the container width to within one unit per gap; the C++ rounding toward
      zero never lets the row overshoot a width it could fit, nor stop short
      of a width it cannot fit. */
  lemma SpacingFillsWidth(items: seq<Item>, count: int, width: int)
    requires items != [] && count > 1
    ensures var gaps, r := count - 1, Spacing(items, count, width);
      var bare := items[0].front.width + gaps * items[0].back.width;
      var row := bare + gaps * r;
      Abs(width - row) < gaps &&
      (row < width ==> bare < width) &&
      (width < row ==> width <= bare)
  {
    var gaps, r := count - 1, Spacing(items, count, width);
    var bare := items[0].front.width + gaps * items[0].back.width;
    assert items[0].back.width * gaps == gaps * items[0].back.width;
    assert width - (bare + gaps * r) == (width - bare) - r * gaps;
  }

  /** Left edge that the layout gives item `k`: the shown widths of the items
      before it, each followed by `spacing`. */
  function LeftOf(items: seq<Item>, selection: int, spacing: int, k: nat): int
    requires k <= |items|
  {
    if k == 0 then 0
    else LeftOf(items, selection, spacing, k - 1) + Shown(items[k - 1], k - 1 == selection).width + spacing
  }

  /** One item after the loop body has handled it: the hidden face detached
      and left where it was, the shown face attached at `left` and centred
      vertically. */
  function Place(item: Item, selected: bool, left: int, containerHeight: int): (r: Item)
    ensures Shown(r, selected).attached && !Hidden(r, selected).attached
    ensures Shown(r, selected).left == left
    ensures Centred(Shown(r, selected), containerHeight)
    ensures Hidden(r, selected).left == Hidden(item, selected).left
    ensures Hidden(r, selected).top == Hidden(item, selected).top
    ensures SameSizes(r, item)
  {
    var face := Shown(item, selected);
    var shown := face.(attached := true, left := left, top := TruncDiv(containerHeight - face.height, 2));
    var hidden := Hidden(item, selected).(attached := false);
    if selected then Item(shown, hidden) else Item(hidden, shown)
  }

  /** The items as the layout pass leaves them. Every item is handled, whatever
      the scroll window would have been: exactly one face of each is attached,
      the front one exactly for the selected index; the shown face starts at
      the item's running offset and is centred vertically; the hidden face
      keeps its position and no face changes size. */
  function Laid(items: seq<Item>, selection: int, spacing: int, containerHeight: int): (r: seq<Item>)
    ensures |r| == |items|
    ensures forall k {:trigger r[k]} :: 0 <= k < |r| ==>
      r[k].front.attached == (k == selection) && r[k].back.attached == (k != selection)
    ensures forall k {:trigger r[k]} :: 0 <= k < |r| ==>
      Shown(r[k], k == selection).left == LeftOf(items, selection, spacing, k) &&
      Centred(Shown(r[k], k == selection), containerHeight)
    ensures forall k {:trigger r[k]} :: 0 <= k < |r| ==>
      SameSizes(r[k], items[k]) &&
      Hidden(r[k], k == selection).left == Hidden(items[k], k == selection).left &&
      Hidden(r[k], k == selection).top == Hidden(items[k], k == selection).top
  {
    seq(|items|, k requires 0 <= k < |items| =>
      Place(items[k], k == selection, LeftOf(items, selection, spacing, k), containerHeight))
  }

  /** Number of attached faces. */
  function AttachedFaces(items: seq<Item>): nat
  {
    if items == [] then 0
    else
      (if items[0].front.attached then 1 else 0) + (if items[0].back.attached then 1 else 0)
      + AttachedFaces(items[1..])
  }

  /** The carousel's item row, its selection and the geometry it lays out in. */
  class CarouselWindow {
    /** Items in display order. */
    var items: seq<Item>
    /** Index of the item shown expanded. */
    var selection: int
    /** Number of item slots the row is sized for. */
    var count: int
    /** Container size, supplied by the widget framework. */
    var width: int
    var height: int

    /** Navigation keeps the selection on an item whenever there is one. */
    predicate SelectionInRange()
      reads this
    {
      items != [] ==> 0 <= selection < |items|
    }

    /** The layout pass: shows the selected item's front face and every other
        item's back face, placing them left to right from 0 with the computed
        spacing. Only the faces change. */
    method Update()
      requires items == [] || count != 1
      modifies this`items
      ensures items == Laid(old(items), selection, Spacing(old(items), count, width), height)
    {
      ghost var first := WindowAnchor(selection, |items|, count);
      var lastPosition := 0;
      var spacing := Spacing(items, count, width);
      ghost var original := items;
      var index := 0;
      while index < |items|
        invariant 0 <= index <= |items| == |original|
        invariant lastPosition == LeftOf(original, selection, spacing, index)
        invariant forall k {:trigger items[k]} :: 0 <= k < index ==>
          items[k] == Place(original[k], k == selection, LeftOf(original, selection, spacing, k), height)
        invariant forall k :: index <= k < |items| ==> items[k] == original[k]
      {
        var item := items[index];
        var window: Face;
        if index == selection {
          window := item.front.(attached := true, left := lastPosition);
          window := window.(top := TruncDiv(height - window.height, 2));
          item := Item(window, item.back.(attached := false));
        } else {
          window := item.back.(attached := true, left := lastPosition);
          window := window.(top := TruncDiv(height - window.height, 2));
          item := Item(item.front.(attached := false), window);
        }
        assert item == Place(original[index], index == selection, lastPosition, height);
        items := items[index := item];
        lastPosition := lastPosition + window.width + spacing;
        index := index + 1;
      }
      LaidPointwise(original, selection, spacing, height, items);
    }
  }

  /** A row that holds, at each index, the item placed at its running offset
      is the laid-out row. */
  lemma LaidPointwise(items: seq<Item>, selection: int, spacing: int, containerHeight: int, placed: seq<Item>)
    requires |placed| == |items|
    requires forall k {:trigger placed[k]} :: 0 <= k < |placed| ==>
      placed[k] == Place(items[k], k == selection, LeftOf(items, selection, spacing, k), containerHeight)
    ensures placed == Laid(items, selection, spacing, containerHeight)
  {
  }

  /** The first shown face starts at 0, and each next one starts where the
      previous shown face ends plus `spacing`. */
  lemma LaidPositions(items: seq<Item>, selection: int, spacing: int, containerHeight: int)
    ensures var r := Laid(items, selection, spacing, containerHeight);
      (|r| > 0 ==> Shown(r[0], 0 == selection).left == 0) &&
      forall k :: 0 <= k < |r| - 1 ==>
        Shown(r[k + 1], k + 1 == selection).left ==
        Shown(r[k], k == selection).left + Shown(r[k], k == selection).width + spacing
  {
  }

  /** Moving from item `k` to item `k + 1` the layout adds the shown width of
      item `k` and the spacing; no such step between two consecutive items
      moves left. */
  predicate StepsForward(items: seq<Item>, selection: int, spacing: int)
  {
    forall k :: 0 <= k < |items| - 1 ==> Shown(items[k], k == selection).width + spacing >= 0
  }

  /** Shown faces are ordered by their left edges, left to right. */
  predicate OrderedLeftToRight(r: seq<Item>, selection: int)
  {
    forall i, j :: 0 <= i <= j < |r| ==> Shown(r[i], i == selection).left <= Shown(r[j], j == selection).left
  }

  /** Left edges never decrease from item `i` to item `j` when no step in
      between moves left (in particular when the spacing and the shown widths
      are non-negative), and strictly increase when every step moves right. */
  lemma {:induction false} LeftOfMonotone(items: seq<Item>, selection: int, spacing: int, i: nat, j: nat)
    requires i <= j <= |items|
    ensures (forall k :: i <= k < j ==> Shown(items[k], k == selection).width + spacing >= 0) ==>
      LeftOf(items, selection, spacing, i) <= LeftOf(items, selection, spacing, j)
    ensures i < j && (forall k :: i <= k < j ==> Shown(items[k], k == selection).width + spacing > 0) ==>
      LeftOf(items, selection, spacing, i) < LeftOf(items, selection, spacing, j)
  {
    if i < j {
      LeftOfMonotone(items, selection, spacing, i, j - 1);
    }
  }

  /** The same ordering, read off the laid-out row. */
  lemma LaidOrdered(items: seq<Item>, selection: int, spacing: int, containerHeight: int, i: nat, j: nat)
    requires i <= j < |items|
    ensures var r := Laid(items, selection, spacing, containerHeight);
      ((forall k :: i <= k < j ==> Shown(items[k], k == selection).width + spacing >= 0) ==>
        Shown(r[i], i == selection).left <= Shown(r[j], j == selection).left) &&
      (i < j && (forall k :: i <= k < j ==> Shown(items[k], k == selection).width + spacing > 0) ==>
        Shown(r[i], i == selection).left < Shown(r[j], j == selection).left)
  {
    LeftOfMonotone(items, selection, spacing, i, j);
  }

  /** The laid-out row is ordered left to right exactly when no step between
      consecutive items moves left. A negative spacing alone does not break
      the order; a spacing more negative than some shown width (other than
      the last item's) does. */
  lemma LaidOrderedExactly(items: seq<Item>, selection: int, spacing: int, containerHeight: int)
    ensures OrderedLeftToRight(Laid(items, selection, spacing, containerHeight), selection) <==>
      StepsForward(items, selection, spacing)
  {
    var r := Laid(items, selection, spacing, containerHeight);
    if StepsForward(items, selection, spacing) {
      forall i, j | 0 <= i <= j < |r|
        ensures Shown(r[i], i == selection).left <= Shown(r[j], j == selection).left
      {
        LaidOrdered(items, selection, spacing, containerHeight, i, j);
      }
    }
    if OrderedLeftToRight(r, selection) {
      forall k | 0 <= k < |items| - 1
        ensures Shown(items[k], k == selection).width + spacing >= 0
      {
        assert Shown(r[k], k == selection).left <= Shown(r[k + 1], k + 1 == selection).left;
      }
    }
  }

  /** The left edges depend only on the shown widths. */
  lemma {:induction false} LeftOfShownWidths(a: seq<Item>, b: seq<Item>, selection: int, spacing: int, k: nat)
    requires |a| == |b| && k <= |a|
    requires forall n :: 0 <= n < |a| ==> Shown(a[n], n == selection).width == Shown(b[n], n == selection).width
    ensures LeftOf(a, selection, spacing, k) == LeftOf(b, selection, spacing, k)
  {
    if k > 0 {
      LeftOfShownWidths(a, b, selection, spacing, k - 1);
    }
  }

  /** Running the layout pass again on its own output, with the same
      selection and geometry, changes nothing. */
  lemma UpdateIdempotent(items: seq<Item>, selection: int, count: int, width: int, height: int)
    requires items == [] || count != 1
    ensures var once := Laid(items, selection, Spacing(items, count, width), height);
      Laid(once, selection, Spacing(once, count, width), height) == once
  {
    var spacing := Spacing(items, count, width);
    var once := Laid(items, selection, spacing, height);
    if items != [] {
      assert SameSizes(once[0], items[0]);
    }
    assert Spacing(once, count, width) == spacing;
    var twice := Laid(once, selection, spacing, height);
    forall k | 0 <= k < |items|
      ensures twice[k] == once[k]
    {
      assert SameSizes(once[k], items[k]);
      LeftOfShownWidths(once, items, selection, spacing, k);
    }
  }

  /** Exactly one face per item is attached, so a row of items holds as many
      attached faces as items. */
  lemma {:induction false} AttachedFacesOnePerItem(items: seq<Item>)
    requires forall k :: 0 <= k < |items| ==> items[k].front.attached != items[k].back.attached
    ensures AttachedFaces(items) == |items|
  {
    if items != [] {
      assert forall k :: 0 <= k < |items[1..]| ==> items[1..][k] == items[k + 1];
      AttachedFacesOnePerItem(items[1..]);
    }
  }

  /** After the layout pass the carousel has exactly one attached face per
      item; with no items it attaches nothing. */
  lemma LaidAttachesOnePerItem(items: seq<Item>, selection: int, spacing: int, containerHeight: int)
    ensures AttachedFaces(Laid(items, selection, spacing, containerHeight)) == |items|
  {
    AttachedFacesOnePerItem(Laid(items, selection, spacing, containerHeight));
  }

  /** All items share the first item's face widths. */
  predicate UniformWidths(items: seq<Item>)
    requires items != []
  {
    forall k :: 0 <= k < |items| ==>
      items[k].front.width == items[0].front.width && items[k].back.width == items[0].back.width
  }

  /** With uniform widths and a selection on the row, the left edge of item
      `k` is `k` back faces and gaps, with the front face in place of one back
      face once the selected item has been passed. */
  lemma {:induction false} LeftOfUniform(items: seq<Item>, selection: int, spacing: int, k: nat)
    requires items != [] && UniformWidths(items)
    requires k <= |items|
    ensures LeftOf(items, selection, spacing, k) ==
      k * (items[0].back.width + spacing)
      + (if 0 <= selection < k then items[0].front.width - items[0].back.width else 0)
  {
    if k > 0 {
      LeftOfUniform(items, selection, spacing, k - 1);
      assert k * (items[0].back.width + spacing) ==
        (k - 1) * (items[0].back.width + spacing) + items[0].back.width + spacing;
    }
  }

  /** With uniform widths and the selection on the row, the last shown face
      ends after one front face, the other back faces and a gap after each of
      those back faces. */
  lemma RowEndUniform(items: seq<Item>, selection: int, spacing: int, n: nat)
    requires n + 1 == |items| && UniformWidths(items)
    requires 0 <= selection <= n
    ensures LeftOf(items, selection, spacing, n) + Shown(items[n], n == selection).width ==
      items[0].front.width + n * items[0].back.width + n * spacing
  {
    LeftOfUniform(items, selection, spacing, n);
    assert n * (items[0].back.width + spacing) == n * items[0].back.width + n * spacing;
  }

  /** When the row has exactly `count` items of uniform widths and one of them
      is selected, the laid-out row ends within one unit per gap of the
      container's right edge, and never beyond it when the faces alone fit. */
  lemma RowSpansContainer(items: seq<Item>, selection: int, count: int, width: int, height: int)
    requires |items| == count >= 2 && UniformWidths(items)
    requires 0 <= selection < count
    ensures var r := Laid(items, selection, Spacing(items, count, width), height);
      var last := Shown(r[count - 1], count - 1 == selection);
      var bare := items[0].front.width + (count - 1) * items[0].back.width;
      Abs(width - (last.left + last.width)) < count - 1 &&
      (bare < width ==> last.left + last.width <= width)
  {
    var spacing := Spacing(items, count, width);
    var n := count - 1;
    var r := Laid(items, selection, spacing, height);
    assert SameSizes(r[n], items[n]);
    RowEndUniform(items, selection, spacing, n);
    SpacingFillsWidth(items, count, width);
  }

  /** One row that the layout leaves out of order: three items with 140-wide
      fronts and 80-wide backs in a 100-wide carousel sized for three slots
      get spacing -100, so the step after the second item (its 80-wide back
      face plus the spacing) is negative and the third item starts left of
      the second. */
  lemma CrowdedRowOverlaps(height: int)
    ensures var face := Face(0, 0, false, 0, 0);
      var item := Item(face.(width := 140), face.(width := 80));
      var items := [item, item, item];
      var spacing := Spacing(items, 3, 100);
      var r := Laid(items, 0, spacing, height);
      spacing == -100 && Shown(r[2], false).left < Shown(r[1], false).left
  {
  }
}
