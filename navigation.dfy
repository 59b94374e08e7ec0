/** Rotary navigation (`Carousel::onEvent`): how directional input moves the
    carousel's selection. */
module CarouselNavigation {
  import opened CarouselLayout

  /** Input events: the two rotary directions, and every other event, which
      the carousel does not look into. */
  datatype Event = RotaryRight | RotaryLeft | Other(code: int)

  /** What the carousel does with an event: commit a new selection through
      `select`, absorb the event without any change, or forward it to the
      window framework's default handling. */
  datatype Reaction = Commit(index: int) | Absorb | Forward

  /** The decision `onEvent` takes for a row of `size` items. Only rotary
      events are consumed; a rotary event moves the selection one step in its
      direction unless the selection is already at that end of the row, in
      which case it is absorbed. */
  function Navigate(selection: int, size: int, e: Event): (r: Reaction)
    ensures r.Forward? <==> e.Other?
    ensures e.RotaryRight? ==>
      (selection < size - 1 ==> r == Commit(selection + 1)) && (selection >= size - 1 ==> r == Absorb)
    ensures e.RotaryLeft? ==>
      (selection > 0 ==> r == Commit(selection - 1)) && (selection <= 0 ==> r == Absorb)
  {
    match e
    case RotaryRight => if selection < size - 1 then Commit(selection + 1) else Absorb
    case RotaryLeft => if selection > 0 then Commit(selection - 1) else Absorb
    case Other(_) => Forward
  }

  /** The selection after an event, given that a commit sets the selection to
      the committed index. An event that is not rotary leaves it alone, no
      event moves it by more than one step, and none moves it off the row. */
  function After(selection: int, size: int, e: Event): (r: int)
    ensures e.Other? ==> r == selection
    ensures -1 <= r - selection <= 1
    ensures 0 <= selection < size ==> 0 <= r < size
  {
    match Navigate(selection, size, e)
    case Commit(index) => index
    case _ => selection
  }

  /** The selection after a sequence of events, one at a time. */
  function Replay(selection: int, size: int, events: seq<Event>): int
    decreases |events|
  {
    if events == [] then selection
    else Replay(After(selection, size, events[0]), size, events[1..])
  }

  /** Starting on the row, every sequence of events keeps the selection on
      the row. */
  lemma {:induction false} ReplayStaysInRange(selection: int, size: int, events: seq<Event>)
    requires 0 <= selection < size
    ensures 0 <= Replay(selection, size, events) < size
    decreases |events|
  {
    if events != [] {
      ReplayStaysInRange(After(selection, size, events[0]), size, events[1..]);
    }
  }

  /** Turning right `n` times moves the selection `n` steps toward the last
      item and stops there; in particular at the last item it stays put. */
  lemma {:induction false} ReplayRight(selection: int, size: int, events: seq<Event>)
    requires 0 <= selection < size
    requires forall i :: 0 <= i < |events| ==> events[i] == RotaryRight
    ensures Replay(selection, size, events) ==
      if selection + |events| < size - 1 then selection + |events| else size - 1
    decreases |events|
  {
    if events != [] {
      assert events[0] == RotaryRight;
      ReplayRight(After(selection, size, events[0]), size, events[1..]);
    }
  }

  /** Turning left `n` times moves the selection `n` steps toward the first
      item and stops there; in particular at index 0 it stays put. */
  lemma {:induction false} ReplayLeft(selection: int, size: int, events: seq<Event>)
    requires 0 <= selection < size
    requires forall i :: 0 <= i < |events| ==> events[i] == RotaryLeft
    ensures Replay(selection, size, events) ==
      if selection - |events| > 0 then selection - |events| else 0
    decreases |events|
  {
    if events != [] {
      assert events[0] == RotaryLeft;
      ReplayLeft(After(selection, size, events[0]), size, events[1..]);
    }
  }

  /** The carousel widget: it wraps the item row and turns rotary input into
      selection changes. It holds no state of its own. */
  class Carousel {
    const body: CarouselWindow

    constructor (body: CarouselWindow)
      ensures this.body == body
    {
      this.body := body;
    }

    /** The framework's selection commit: it sets the row's selection. What
        it triggers beyond that (a new layout pass) is not part of this
        model. */
    method Select(index: int)
      modifies body`selection
      ensures body.selection == index
    {
      body.selection := index;
    }

    /** Handles one input event. Returns whether the event was forwarded to
        the window framework; the row's items and geometry never change, and
        a selection on the row stays on the row. */
    method OnEvent(e: Event) returns (forwarded: bool)
      modifies body`selection
      ensures body.selection == After(old(body.selection), |body.items|, e)
      ensures forwarded <==> e.Other?
      ensures old(body.SelectionInRange()) ==> body.SelectionInRange()
    {
      forwarded := false;
      if e.RotaryRight? {
        if body.selection < |body.items| - 1 {
          Select(body.selection + 1);
        }
      } else if e.RotaryLeft? {
        if body.selection > 0 {
          Select(body.selection - 1);
        }
      } else {
        forwarded := true;
      }
    }
  }
}
