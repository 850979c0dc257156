/**
 The gallery tab handler (`initGalleryTabs`): clicking a tab makes it the one
 active tab and shows exactly the items of its category, or every item for
 the wildcard category `all`.
 */
module Gallery {
  import opened Wrappers

  /** A tab: its `data-category` attribute (`None` when it has none, which
      `getAttribute` reports as `null`) and whether it carries `active`. */
  datatype Tab = Tab(category: Option<string>, active: bool)

  /** An item's inline `display`: never set by the script, `block`, or `none`. */
  datatype Display = Unset | Block | Hidden

  /** A gallery item: its `data-category`, its inline display, and whether
      its inline animation has been set to the fade-in. */
  datatype Item = Item(category: Option<string>, display: Display, fadingIn: bool)

  datatype Gallery = Gallery(tabs: seq<Tab>, items: seq<Item>)

  const Wildcard := "all"

  /** `category === 'all' || itemCategory === category`. Two missing
      attributes compare equal (`null === null`). */
  predicate Shows(selected: Option<string>, itemCategory: Option<string>) {
    selected == Some(Wildcard) || itemCategory == selected
  }

  /** Number of tabs carrying the active marker. */
  function ActiveCount(tabs: seq<Tab>): (n: nat) {
    if tabs == [] then 0 else (if tabs[0].active then 1 else 0) + ActiveCount(tabs[1..])
  }

  /** Exactly the tab at index `t` is active. */
  predicate OnlyActive(tabs: seq<Tab>, t: int) {
    0 <= t < |tabs| && forall i :: 0 <= i < |tabs| ==> (tabs[i].active <==> i == t)
  }

  lemma {:induction false} NoneActive(tabs: seq<Tab>)
    ensures ActiveCount(tabs) == 0 <==> forall i :: 0 <= i < |tabs| ==> !tabs[i].active
    decreases |tabs|
  {
    if tabs != [] {
      NoneActive(tabs[1..]);
      assert forall i :: 0 < i < |tabs| ==> tabs[i] == tabs[1..][i - 1];
    }
  }

  /** One active tab, counted, is the same as one index being the only
      active one. */
  lemma {:induction false} OneActiveIff(tabs: seq<Tab>)
    ensures ActiveCount(tabs) == 1 <==> exists t :: OnlyActive(tabs, t)
    decreases |tabs|
  {
    if tabs == [] {
      return;
    }
    var rest := tabs[1..];
    assert forall i :: 0 < i < |tabs| ==> tabs[i] == rest[i - 1];
    OneActiveIff(rest);
    NoneActive(rest);
    if tabs[0].active {
      if ActiveCount(tabs) == 1 {
        assert OnlyActive(tabs, 0);
      }
      if exists t :: OnlyActive(tabs, t) {
        var t :| OnlyActive(tabs, t);
        assert t == 0;
      }
    } else {
      if ActiveCount(tabs) == 1 {
        var t :| OnlyActive(rest, t);
        assert OnlyActive(tabs, t + 1);
      }
      if exists t :: OnlyActive(tabs, t) {
        var t :| OnlyActive(tabs, t);
        assert OnlyActive(rest, t - 1);
      }
    }
  }

  /** The per-item step of the filter. A shown item also gets the fade-in
      animation; a hidden one keeps whatever animation it had. */
  function Filter(selected: Option<string>, item: Item): (shown: Item) {
    if Shows(selected, item.category) then item.(display := Block, fadingIn := true)
    else item.(display := Hidden)
  }

  /** A click on tab `t`. Afterwards exactly that tab is active, each item is
      displayed exactly when the filter shows it, and categories, tab order
      and item order are unchanged. */
  function SelectTab(g: Gallery, t: nat): (h: Gallery)
    requires t < |g.tabs|
    ensures |h.tabs| == |g.tabs| && |h.items| == |g.items|
    ensures ActiveCount(h.tabs) == 1 && OnlyActive(h.tabs, t)
    ensures forall i :: 0 <= i < |h.tabs| ==> h.tabs[i].category == g.tabs[i].category
    ensures forall j :: 0 <= j < |h.items| ==>
      && h.items[j].category == g.items[j].category
      && (h.items[j].display == Block <==> Shows(g.tabs[t].category, g.items[j].category))
      && (h.items[j].display == Block || h.items[j].display == Hidden)
      && (h.items[j].display == Block ==> h.items[j].fadingIn)
      && (h.items[j].display == Hidden ==> h.items[j].fadingIn == g.items[j].fadingIn)
  {
    var selected := g.tabs[t].category;
    var cleared := seq(|g.tabs|, i requires 0 <= i < |g.tabs| => g.tabs[i].(active := false));
    var tabs := cleared[t := cleared[t].(active := true)];
    var items := seq(|g.items|, j requires 0 <= j < |g.items| => Filter(selected, g.items[j]));
    assert OnlyActive(tabs, t);
    OneActiveIff(tabs);
    Gallery(tabs, items)
  }

  /** Clicking the same tab again changes nothing. */
  lemma SelectTabIdempotent(g: Gallery, t: nat)
    requires t < |g.tabs|
    ensures SelectTab(SelectTab(g, t), t) == SelectTab(g, t)
  {
  }

  /** Only the last click decides which tab is active and which items are
      displayed. */
  lemma LastSelectionWins(g: Gallery, first: nat, second: nat)
    requires first < |g.tabs| && second < |g.tabs|
    ensures SelectTab(SelectTab(g, first), second).tabs == SelectTab(g, second).tabs
    ensures forall j :: 0 <= j < |g.items| ==>
      SelectTab(SelectTab(g, first), second).items[j].display == SelectTab(g, second).items[j].display
  {
  }
}
