# Carousel widget: layout pass and rotary navigation

A Dafny model of the carousel widget of libopenui as used by EdgeTX
(`radio/src/thirdparty/libopenui/src/carousel.cpp`). A carousel is a
horizontal row of items. Each item has two windows: an expanded `front` face
shown for the selected item and a collapsed `back` face shown for all others.
The model has two parts:

- `CarouselLayout` (layout.dfy) models `CarouselWindow::update`. For each item
  it attaches one face and detaches the other, places the shown face at a
  running horizontal offset, and centres it vertically. The gap between items
  comes from the container width and the number of slots (`count`). The class
  `CarouselWindow` holds the item row (`items: seq<Item>`), the selection, the
  slot count and the container size. `Update` is a loop that rewrites the
  faces in place. Its postcondition equates the new row with the
  specification function `Laid`. The lemmas about `Laid` cover attachment,
  positions, ordering, idempotence, and how the row fills the container.
- `CarouselNavigation` (navigation.dfy) models `Carousel::onEvent`. A rotary
  event moves the selection one step unless the selection is already at that
  end of the row. Any other event is forwarded to the window framework.
  `Carousel.OnEvent` changes `body.selection` through `Carousel.Select`, which
  stands for the framework's selection commit. The lemmas show that any
  sequence of events keeps a selection on the row, and that repeated turns
  stop at either end.
- `CoordMath` (coord.dfy) holds C++ integer division, which truncates toward
  zero. Dafny's `/` is Euclidean.

Three edge cases of the code shape the contracts:

- With items present and `count == 1`, the code divides by `count - 1 == 0`.
  Its guard is only `count > 0`, and there is no fallback. So `Spacing` and
  `Update` require `items == [] || count != 1`.
- Vertical centring uses C++ truncating division (`Centred` states the
  resulting rounding).
- Each step of the running offset adds the shown width of the previous item
  and the spacing, and the spacing can be negative when the container is
  narrow. The laid-out row is ordered left to right exactly when no step
  between consecutive items is negative (`LaidOrderedExactly`); non-negative
  spacing and widths are one sufficient case (`LeftOfMonotone`). In
  `CrowdedRowOverlaps` (three items, spacing -100 against 80-wide backs) the
  step after the second item is negative, so the third item starts left of
  the second.

The scroll-window anchor `first` (lines 23-24) is computed as a ghost value in
`Update` and nothing reads it. Every item is laid out whatever `count` is.

## Model

| member | source | states |
|---|---|---|
| CoordMath.TruncDiv | radio/src/thirdparty/libopenui/src/carousel.cpp:28-43 | C++ `/`, as used in the spacing formula (line 28) and the vertical centring (line 43): the remainder is smaller than the divisor in magnitude and never has the opposite sign of the dividend (rounds toward zero) |
| CarouselLayout.WindowAnchor | radio/src/thirdparty/libopenui/src/carousel.cpp:23-24 | the anchor is never negative; when positive it is the smaller of `selection - 2` and `size - count`; it is 0 only when one of those is at most 0 |
| CarouselLayout.Spacing | radio/src/thirdparty/libopenui/src/carousel.cpp:26-28 | the gap is 10 when there are no items or `count <= 0`; requires `count != 1` when there are items, because the code divides by `count - 1` |
| CarouselLayout.SpacingFillsWidth | radio/src/thirdparty/libopenui/src/carousel.cpp:28 | with items and `count > 1`: one front face and `count - 1` back faces of the first item's widths, plus `count - 1` gaps, land within `count - 1` units of the width; they overshoot only a width no wider than the bare faces, and fall short only of a width the bare faces fit within |
| CarouselLayout.Place | radio/src/thirdparty/libopenui/src/carousel.cpp:33-43 | one loop step: the shown face (front iff selected) is attached at the given left and centred vertically; the hidden face is detached and keeps its position; no face changes size |
| CarouselLayout.Laid | radio/src/thirdparty/libopenui/src/carousel.cpp:30-46 | every item is handled: the front face is attached iff the index is the selection, and the back face iff it is not; each shown face is at its running offset `LeftOf` and centred; hidden faces keep their position; sizes are unchanged |
| CarouselLayout.CarouselWindow.Update | radio/src/thirdparty/libopenui/src/carousel.cpp:21-48 | the loop leaves `items == Laid(old items, selection, Spacing(old items, count, width), height)`; it changes nothing else; the window anchor does not affect the result; requires `count != 1` when there are items |
| CarouselLayout.LaidPointwise | radio/src/thirdparty/libopenui/src/carousel.cpp:30-46 | the bridge from the loop in `Update` to `Laid`: a row that holds, at every index, the item placed at its running offset equals `Laid` of the original row |
| CarouselLayout.LaidPositions | radio/src/thirdparty/libopenui/src/carousel.cpp:25-44 | the first shown face has left 0; each next shown face starts at the previous one's left plus its width plus the spacing |
| CarouselLayout.LeftOfMonotone | radio/src/thirdparty/libopenui/src/carousel.cpp:42-44 | from item `i` to item `j`, running offsets never decrease when no step in between (shown width plus spacing) is negative, and strictly increase when every such step is positive; non-negative widths and spacing are one such case |
| CarouselLayout.LaidOrdered | radio/src/thirdparty/libopenui/src/carousel.cpp:42-44 | the left edges of the laid-out shown faces from `i` to `j` are ordered under the same step conditions, strictly when every step is positive |
| CarouselLayout.LaidOrderedExactly | radio/src/thirdparty/libopenui/src/carousel.cpp:42-44 | the whole laid-out row is ordered left to right if and only if, for every pair of consecutive items, the first one's shown width plus the spacing is non-negative |
| CarouselLayout.LeftOfShownWidths | radio/src/thirdparty/libopenui/src/carousel.cpp:44 | offsets depend only on the widths of the shown faces |
| CarouselLayout.UpdateIdempotent | radio/src/thirdparty/libopenui/src/carousel.cpp:21-48 | laying out the laid-out row again, with the same selection, count and geometry, gives the same row |
| CarouselLayout.AttachedFacesOnePerItem | radio/src/thirdparty/libopenui/src/carousel.cpp:33-41 | a row in which each item has exactly one attached face holds as many attached faces as items |
| CarouselLayout.LaidAttachesOnePerItem | radio/src/thirdparty/libopenui/src/carousel.cpp:31-41 | after the layout pass the number of attached faces equals the number of items; with no items, nothing is attached |
| CarouselLayout.LeftOfUniform | radio/src/thirdparty/libopenui/src/carousel.cpp:42-44 | with uniform widths, item `k` starts after `k` back faces and gaps, with the front face in place of one back face once the selected item is passed |
| CarouselLayout.RowEndUniform | radio/src/thirdparty/libopenui/src/carousel.cpp:42-44 | with uniform widths, the last shown face ends after one front face and the other back faces, with a gap after each back face |
| CarouselLayout.RowSpansContainer | radio/src/thirdparty/libopenui/src/carousel.cpp:26-44 | with exactly `count >= 2` uniform items and a selection on the row, the row ends within `count - 1` units of the container's right edge, and never past it when the bare faces fit |
| CarouselLayout.CrowdedRowOverlaps | radio/src/thirdparty/libopenui/src/carousel.cpp:28-44 | with a container too narrow for its slots (width 100, three slots, fronts 140, backs 80), the spacing is -100 and the third item starts left of the second: one concrete row out of order |
| CarouselNavigation.Navigate | radio/src/thirdparty/libopenui/src/carousel.cpp:55-65 | only non-rotary events are forwarded; right commits `selection + 1` iff `selection < size - 1` and is absorbed otherwise; left commits `selection - 1` iff `selection > 0` and is absorbed otherwise |
| CarouselNavigation.After | radio/src/thirdparty/libopenui/src/carousel.cpp:55-64 | a non-rotary event leaves the selection unchanged; no event moves it more than one step; a selection on the row stays on the row |
| CarouselNavigation.ReplayStaysInRange | radio/src/thirdparty/libopenui/src/carousel.cpp:55-62 | from `0 <= selection < size`, every event sequence keeps the selection in that range |
| CarouselNavigation.ReplayRight | radio/src/thirdparty/libopenui/src/carousel.cpp:55-58 | `n` right turns move the selection to `min(selection + n, size - 1)`, so at the last index it stays put |
| CarouselNavigation.ReplayLeft | radio/src/thirdparty/libopenui/src/carousel.cpp:59-62 | `n` left turns move the selection to `max(selection - n, 0)`, so at index 0 it stays put |
| CarouselNavigation.Carousel.Select | radio/src/thirdparty/libopenui/src/carousel.cpp:57 | the commit sets the row's selection to the given index |
| CarouselNavigation.Carousel.OnEvent | radio/src/thirdparty/libopenui/src/carousel.cpp:51-66 | the new selection is `After(old selection, items.size(), event)`; the event is forwarded iff it is not rotary; items and geometry are untouched; a selection in range stays in range |

## Left out

- Debug tracing (`TRACE_WINDOWS`, line 53): logging with no effect on behaviour.
- The `HARDWARE_KEYS` compile-time switch (lines 50, 67): navigation is modelled as compiled in.
- `Window::onEvent` (line 64): the framework's default event handling. It is modelled only as the `forwarded` result, with the selection unchanged.
- The framework's window operations (`attach`, `detach`, `setLeft`, `setTop`, `width`, `height`): each face is a value record with a size, an attached flag and a position. The parent a face is attached to and the order of children are not modelled.
- Aliasing: faces are values inside `items`. The case where one window object serves as a face of two items (or as both faces of one item) is not modelled.
- Carousel.Select: the body of `select()` is not part of this source file. The model sets the selection and does not model the re-layout it is expected to trigger.
- Integer widths: `coord_t`, `selection` and `count` are unbounded signed integers. Overflow is not modelled. `carousel.h`, which declares their C++ types, is not part of this model.
- WindowAnchor: the `size_t` arithmetic of `items.size() - count` (which wraps when `count` exceeds the size) is modelled as a plain integer difference. The value is never used.
- Painting, touch handling and every other member of the widget classes, which are declared outside this file.
