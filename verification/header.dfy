/**
 The window scroll listener that restyles the header. The scroll offset is a
 given number; the style depends on it alone, with no hysteresis.
 */
module HeaderStyle {

  /** The header's inline `background` and `backdropFilter`. */
  datatype Style = Style(background: string, backdropFilter: string)

  const Translucent := Style("rgba(255, 255, 255, 0.95)", "blur(10px)")
  const Opaque := Style("var(--white)", "none")

  const Threshold: real := 100.0

  /** The style set for a scroll offset `scrollY`: translucent strictly past
      the threshold, opaque at or before it. */
  function OnScroll(scrollY: real): (s: Style)
    ensures s == Translucent || s == Opaque
    ensures s == Translucent <==> scrollY > Threshold
  {
    if scrollY > Threshold then Translucent else Opaque
  }

  /** Scrolling further down never turns a translucent header opaque. */
  lemma TranslucentUpward(y: real, z: real)
    requires y <= z && OnScroll(y) == Translucent
    ensures OnScroll(z) == Translucent
  {
  }

  /** Offset 150 gives the translucent header; scrolling back to 50
      restores the default one. */
  lemma SampleOffsets()
    ensures OnScroll(150.0) == Translucent
    ensures OnScroll(50.0) == Opaque
  {
  }
}
