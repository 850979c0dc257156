/**
 The hover handlers of `initDropdownMenus`. Every handler writes the same
 three inline style properties of the submenu, so the submenu is always in
 one of two styled states once any event has reached it.
 */
module Dropdown {

  /** The submenu's inline `opacity`, `visibility` and `transform`. */
  datatype Submenu = Submenu(opacity: string, visibility: string, transform: string)

  /** Pointer entering the dropdown, pointer leaving it, and a button press
      on one of the submenu's links. */
  datatype Event = MouseEnter | MouseLeave | LinkMouseDown

  const Shown := Submenu("1", "visible", "translateY(0)")
  const Hidden := Submenu("0", "hidden", "translateY(-10px)")

  /** One event: entering shows the submenu; leaving and a link press hide it. */
  function Handle(s: Submenu, e: Event): (r: Submenu)
    ensures r == Shown || r == Hidden
    ensures r == Shown <==> e == MouseEnter
  {
    match e
    case MouseEnter => Shown
    case MouseLeave => Hidden
    case LinkMouseDown => Hidden
  }

  /** A sequence of events, in order. With no events the inline style is as
      it was; otherwise the three properties have moved together and the
      last event alone decides between shown and hidden. */
  function Run(s: Submenu, events: seq<Event>): (r: Submenu)
    ensures events == [] ==> r == s
    ensures events != [] ==> r == Shown || r == Hidden
    ensures events != [] ==> (r == Shown <==> events[|events| - 1] == MouseEnter)
    decreases |events|
  {
    if events == [] then s else Run(Handle(s, events[0]), events[1..])
  }

  /** Pressing a link hides the submenu at once, before the click that
      follows triggers the scroll, whatever happened before. */
  lemma PressHidesAtOnce(s: Submenu, events: seq<Event>)
    ensures Run(s, events + [LinkMouseDown]) == Hidden
  {
  }
}
