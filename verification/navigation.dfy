/**
 The mobile menu toggle (`initMobileMenu`), in-page navigation
 (`initSmoothScrolling`) and the scroll half of `handleDropdownLinkClick`.
 The browser's animated scroll is reduced to the target offset it is asked
 for; element lookups become optional inputs.
 */
module Navigation {
  import opened Wrappers

  /** The `active` markers of the navigation menu and of its toggle control. */
  datatype Menu = Menu(navActive: bool, toggleActive: bool)

  /** What the navigation handlers change: the menu markers (`None` when the
      menu or its toggle is missing from the page) and the offset of the
      latest scroll request, if any. */
  datatype View = View(menu: Option<Menu>, scrollRequest: Option<int>)

  /** The gap left between the header and a section scrolled to. */
  const ScrollMargin := 20

  const Closed := Menu(false, false)

  /** A click on the toggle. The listener exists only when both elements do;
      each marker is flipped on its own. */
  function ToggleMenu(m: Option<Menu>): (r: Option<Menu>)
    ensures r.Some? <==> m.Some?
    ensures m.Some? ==> r.value.navActive == !m.value.navActive && r.value.toggleActive == !m.value.toggleActive
  {
    match m
    case None => None
    case Some(menu) => Some(Menu(!menu.navActive, !menu.toggleActive))
  }

  /** Two clicks on the toggle restore both markers. */
  lemma ToggleTwice(m: Option<Menu>)
    ensures ToggleMenu(ToggleMenu(m)) == m
  {
  }

  /** Markers that agree keep agreeing under the toggle, so the menu and its
      control open and close together. */
  lemma ToggleKeepsMarkersTogether(m: Menu)
    requires m.navActive == m.toggleActive
    ensures ToggleMenu(Some(m)).value.navActive == ToggleMenu(Some(m)).value.toggleActive
  {
  }

  /** `offsetTop - headerHeight - 20`: the section's top lands the margin
      below the bottom of the fixed header. */
  function ScrollTarget(offsetTop: int, headerHeight: int): (y: int)
    ensures y + headerHeight + ScrollMargin == offsetTop
    ensures headerHeight >= 0 ==> y <= offsetTop - ScrollMargin
  {
    offsetTop - headerHeight - ScrollMargin
  }

  /** A click on an in-page link. `target` is the `offsetTop` of the element
      the link's fragment selects, `None` when no element matches (or the
      selector is rejected); `header` is the header's `offsetHeight`, `None`
      when the page has no header, in which case the handler fails before
      scrolling. The default navigation is suppressed in every case. */
  function FollowLink(v: View, target: Option<int>, header: Option<int>): (w: View)
    ensures target.None? ==> w == v
    ensures target.Some? && header.None? ==> w == v
    ensures target.Some? && header.Some? ==>
      && w.scrollRequest == Some(ScrollTarget(target.value, header.value))
      && (w.menu.Some? <==> v.menu.Some?)
      && (w.menu.Some? ==> !w.menu.value.navActive && !w.menu.value.toggleActive)
  {
    match (target, header)
    case (Some(top), Some(height)) =>
      var menu := if v.menu.Some? then Some(Closed) else None;
      View(menu, Some(ScrollTarget(top, height)))
    case _ => v
  }

  /** A successful navigation closes the menu whatever its state, so a
      following toggle opens both markers. */
  lemma ToggleAfterNavigationOpens(v: View, top: int, height: int)
    requires v.menu.Some?
    ensures ToggleMenu(FollowLink(v, Some(top), Some(height)).menu) == Some(Menu(true, true))
  {
  }

  /** Following the same link twice gives the state of following it once. */
  lemma FollowLinkIdempotent(v: View, target: Option<int>, header: Option<int>)
    ensures FollowLink(FollowLink(v, target, header), target, header) == FollowLink(v, target, header)
  {
  }

  /** The synchronous part of `handleDropdownLinkClick(linkText)`: a scroll
      to the activities section and a highlight of `linkText` scheduled for
      later. No listener in script.js calls that function, so no control the
      script wires reaches it. */
  datatype Jump = Jump(scrollRequest: int, pendingHighlight: string)

  /** `None` when the page has no activities section, or no header (the
      handler then fails before scrolling). */
  function DropdownLinkJump(activitiesTop: Option<int>, header: Option<int>, linkText: string): (j: Option<Jump>)
    ensures j.Some? <==> activitiesTop.Some? && header.Some?
    ensures j.Some? ==> j.value.pendingHighlight == linkText
  {
    match (activitiesTop, header)
    case (Some(top), Some(height)) => Some(Jump(ScrollTarget(top, height), linkText))
    case _ => None
  }

  /** The activities jump asks for the same scroll offset as a navigation
      link to the same section, but leaves the menu markers alone. */
  lemma DropdownJumpAgreesWithLink(v: View, activitiesTop: Option<int>, header: Option<int>, linkText: string)
    requires activitiesTop.Some? && header.Some?
    ensures DropdownLinkJump(activitiesTop, header, linkText).Some?
    ensures Some(DropdownLinkJump(activitiesTop, header, linkText).value.scrollRequest)
      == FollowLink(v, activitiesTop, header).scrollRequest
  {
  }
}
