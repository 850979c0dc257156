# Page behaviour of the chapter website, modelled in Dafny

The website's script wires a handful of small behaviours to the page: the
mobile menu toggle, in-page navigation that scrolls past the fixed header and
closes the menu, the gallery's category tabs, reveal-on-scroll markers, hover
dropdowns, the header's scroll style, and the contact form's validation. It
also defines `handleDropdownLinkClick`, which scrolls to the activities section
and then calls the activity-card highlighter `highlightActivityType`. No
listener in the script calls `handleDropdownLinkClick`, so neither function is
reachable from a control the script wires; a caller could only sit in the
page's markup, which is not part of this model. Both are modelled as written. The page itself is only where these behaviours keep
their state: class markers, inline styles, error annotations.

This project states that state explicitly, as immutable records of flags and
sequences, and models each handler as a pure function from the state before an
event to the state after it. Element lookups become optional inputs
(`Option`, where `None` is JavaScript's `null`). Measurements the browser
supplies are given numbers: element offsets, header height, scroll offset, and
whether an element intersects the viewport.

Modules, one per behaviour:

- `JsText` (text.dfy) holds the string primitives the handlers use. Whitespace
  is the exact ECMAScript WhiteSpace and LineTerminator set, which is shared by
  `\s` and `trim`. The file also has `trim`, ASCII `toLowerCase`, `includes`,
  and occurrence and index helpers.
- `EmailPattern` (email.dfy) models `isValidEmail`. The regular expression is
  a token list matched with backtracking, whole-string semantics. The match is
  proved equal to a structural description of an address.
- `ContactForm` (contact_form.dfy) models the submit handler, `showError`, and
  the success banner and form reset.
- `Gallery` (gallery.dfy) models the tab click: exclusive selection plus the
  item filter.
- `Navigation` (navigation.dfy) covers the menu toggle, in-page link clicks,
  and the scroll half of `handleDropdownLinkClick`, which no wired control
  reaches (see above).
- `ScrollReveal` (scroll_reveal.dfy) models the intersection callback over one
  batch of entries.
- `Dropdown` (dropdown.dfy) holds the hover and link-press handlers of a
  submenu.
- `HeaderStyle` (header.dfy) models the scroll listener's header style.
- `Highlight` (highlight.dfy) models `highlightActivityType`, which no wired
  control reaches (see above).
- `Wrappers` (wrappers.dfy) holds `Option`.

Three behaviours of the code are easy to misread:

- On a valid submit the form is `reset()`. That restores each control's
  default value. It does not necessarily clear the control, so `Control`
  carries a `defaultValue`.
- The address is tested untrimmed, so whitespace at either end makes the email
  field invalid. The handler's own `trim()` emptiness test on that field is
  redundant.
- The header height is read without a null check. With no header, a
  navigation click fails before it scrolls, and so it changes nothing.

## Model

| member | source | states |
|---|---|---|
| JsText.Trim | script.js:259-269 | `trim()` yields the empty string exactly when the value is all whitespace. A non-empty result starts and ends with non-whitespace. A value without whitespace is unchanged. |
| JsText.TrimKeepsMiddle | script.js:259-269 | The result of `trim()` is a contiguous slice of the value with only whitespace before and after it. With `Trim`'s end conditions, exactly the leading and trailing whitespace is removed. |
| JsText.ToLower | script.js:174-175 | Same length; each ASCII capital is lowered, every other character kept. |
| JsText.IncludesIffOccurs | script.js:177-182 | `includes(s, t)` holds exactly when `t` occurs in `s` at some index. |
| EmailPattern.AddressMatches | script.js:285 | The pattern matches exactly when the first `@` has a non-empty run of `[^\s@]` before it and the rest matches `[^\s@]+\.[^\s@]+`. |
| EmailPattern.DomainMatches | script.js:285 | `[^\s@]+\.[^\s@]+` matches exactly the strings of `[^\s@]` characters with a `.` that is neither first nor last. |
| EmailPattern.ValidEmailIffWellFormed | script.js:284-287 | `isValidEmail(s)` holds iff all of these hold: `s` has no whitespace, exactly one `@`, a non-empty part before it, and a `.` after it that is not that part's first or last character. |
| EmailPattern.SampleAddressAccepted | script.js:284-287 | "jane@example.com" is accepted. |
| EmailPattern.SampleAddressRejected | script.js:284-287 | "not-an-email" is rejected. |
| ContactForm.ShowError | script.js:289-303 | The first annotation in the control's container gets the new text, or one annotation is created if there was none. The other annotations and the value stay. The border becomes the alert colour. |
| ContactForm.ShowErrorReplaces | script.js:290-292 | A second `showError` replaces the first one's text and adds no annotation. |
| ContactForm.ShowErrorKeepsOne | script.js:289-301 | A container with at most one annotation has exactly one afterwards, holding the latest text. |
| ContactForm.EmailTestIsPatternTest | script.js:264 | The email test (trimmed value empty, or the pattern rejects the untrimmed value) is exactly "the pattern rejects the value". |
| ContactForm.SurroundingWhitespaceRejected | script.js:264 | Whitespace at either end of the address alone makes the email field invalid. |
| ContactForm.HandlerChecks | script.js:259-272 | Each of the handler's three tests fails exactly for its field in the set of invalid fields. That set is defined without `trim`. |
| ContactForm.Submit | script.js:249-278 | All three checks run. Each invalid field gets `showError` with its own text. The form is reset and one success banner added iff no field is invalid; otherwise the other fields are untouched. |
| ContactForm.SubmitField | script.js:257-278 | The same outcome, stated for any one field. |
| ContactForm.SubmitOnlyAddsAnnotations | script.js:257-301 | After a submit, the annotated fields are those annotated before plus exactly the invalid ones. No annotation is removed and no alert border is restored. |
| ContactForm.ValidSubmitKeepsStaleErrors | script.js:274-278 | A valid submit leaves earlier annotations and borders in place. It restores default values and adds one banner. |
| ContactForm.SubmitOneAnnotationPerField | script.js:289-301 | With at most one annotation per container before a submit, there is at most one after. Each invalid field's annotation is exactly its own error text. |
| ContactForm.SampleMissingNameAndBadAddress | script.js:257-278 | Empty name, "not-an-email" and "hi" on a fresh form: name and email are annotated, and no banner is shown. |
| ContactForm.SampleValidSubmission | script.js:257-278 | "Jane", "jane@example.com" and "Hello" on a fresh form: nothing is annotated, one banner is shown, and every value is cleared. |
| Gallery.OneActiveIff | script.js:65-67 | Counting one active tab is the same as exactly one index being the active one. |
| Gallery.SelectTab | script.js:62-79 | After a click on tab `t`, exactly `t` is active. Each item is displayed iff the category is `all` or equals the item's; a missing attribute equals only a missing one. Displayed items fade in, hidden ones keep their animation, and categories and order are unchanged. |
| Gallery.SelectTabIdempotent | script.js:62-79 | Clicking the same tab twice is the same as clicking it once. |
| Gallery.LastSelectionWins | script.js:62-79 | After two clicks, the active tab and every item's display are those of the second click alone. |
| Navigation.ToggleMenu | script.js:16-20 | The toggle flips both markers when both elements exist. Otherwise nothing is wired. |
| Navigation.ToggleTwice | script.js:17-20 | Two toggles restore both markers. |
| Navigation.ToggleKeepsMarkersTogether | script.js:17-20 | Markers that agree keep agreeing under the toggle. |
| Navigation.ScrollTarget | script.js:37 | The target offset places the section's top 20 below the header's bottom. |
| Navigation.FollowLink | script.js:29-51 | With the target and header found, the handler requests that scroll and turns both menu markers off if the menu exists. With either one missing, nothing changes. |
| Navigation.ToggleAfterNavigationOpens | script.js:44-50 | After a successful navigation, the next toggle opens both markers, whatever they were before. |
| Navigation.FollowLinkIdempotent | script.js:29-51 | Following the same link twice gives the state of following it once. |
| Navigation.DropdownLinkJump | script.js:144-160 | A jump happens iff the activities section and the header exist. It schedules the highlight of the link text. |
| Navigation.DropdownJumpAgreesWithLink | script.js:148-149 | The activities jump requests the same offset as a navigation link to that section. |
| ScrollReveal.Observe | script.js:91-97 | After a batch, an element is revealed iff it was before or some entry reports it intersecting. |
| ScrollReveal.LeavingChangesNothing | script.js:92-96 | A batch without intersecting entries changes nothing. |
| ScrollReveal.RevealIsMonotone | script.js:92-96 | A revealed element stays revealed. |
| ScrollReveal.BatchesCompose | script.js:91-97 | Two batches in a row act as their concatenation. |
| ScrollReveal.BatchOrderIrrelevant | script.js:91-97 | Two batches give the same result in either order. |
| Dropdown.Handle | script.js:115-137 | The three style properties move together: shown on pointer enter, hidden on pointer leave or link press. |
| Dropdown.Run | script.js:115-137 | After any non-empty event sequence the submenu is shown or hidden, and shown iff the last event was pointer enter. No events means no change. |
| Dropdown.PressHidesAtOnce | script.js:130-137 | A link press leaves the submenu hidden whatever came before. |
| HeaderStyle.OnScroll | script.js:195-204 | The header is translucent iff the scroll offset is strictly above 100, and opaque otherwise. |
| HeaderStyle.TranslucentUpward | script.js:197 | A larger offset never turns a translucent header opaque. |
| HeaderStyle.SampleOffsets | script.js:197-203 | Offset 150 gives the translucent header; offset 50 gives the default one. |
| Highlight.HandlerConditionIsTitleMatch | script.js:177-182 | The handler's five keyword clauses equal a single clause over the keyword list. |
| Highlight.HighlightActivityType | script.js:164-191 | After the call, a card is highlighted iff its lowercased title includes the lowercased type, or some keyword is in both. Titles and order are kept. |
| Highlight.HighlightForgetsEarlier | script.js:167-170 | Earlier highlights play no part: the result depends on the titles alone. |
| Highlight.EmptyTypeHighlightsAll | script.js:174-177 | An empty activity type highlights every card. |
| Highlight.SampleKeywordMatch | script.js:177-182 | "Technical Visits" highlights "Industrial Visit" through the keyword `visit`, though the title does not include the type. |

## Left out

- Registering listeners, querying the DOM and sequencing `DOMContentLoaded` are
  left out. Each handler is a function over the state it reads and writes.
- The animation of `window.scrollTo` and the browser's clamping of negative
  offsets are left out. Only the requested offset is kept.
- All timers are left out: the 800 ms delay before highlighting, the 3000 ms
  highlight removal, and the 5000 ms banner removal. The pending highlight is
  recorded in `Navigation.Jump`, but the timer is not run.
- The `IntersectionObserver` geometry is left out: the 0.1 threshold and the
  bottom margin. Whether an entry intersects is part of the entry.
- The injected style sheet (script.js:206-243) and the banner's styling are
  left out. They are presentation only. The banner is kept as its text.
- JsText.ToLower: only the ASCII letters are lowercased. JavaScript's
  `toLowerCase` follows full Unicode case mapping, which is out of scope.
- JavaScript strings are UTF-16 code units, while Dafny characters are Unicode
  scalar values. Lone surrogates cannot be represented. The whitespace set and
  the pattern need no other change.
- Navigation.FollowLink: the CSS selector grammar of `querySelector(href)` is
  not modelled. A fragment that matches no element and one the selector syntax
  rejects (such as a bare `#`) both end the handler with no change, so the
  lookup result is an input.
- Some lookups have no null check and would throw: the three form controls,
  the header in the scroll listener, and a card's `h3`. The model assumes these
  elements exist, through the shape of `Form`, `HeaderStyle.OnScroll` and
  `Highlight.Card`.
- Each form control is assumed to sit in its own container. If two controls
  shared a parent, they would share the first `.error-message`. That case is
  not modelled.
- The browser's value sanitisation for `type="email"` inputs is not modelled.
  The markup is not part of this model, and the value is taken as given.
- A dropdown without a `.dropdown-menu` gets no handlers, so it has no state in
  `Dropdown`.
- Gallery items' inline animation string is reduced to a `fadingIn` flag.
