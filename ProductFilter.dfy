/**
 * The product category tabs: a click on a `.tab-button` makes it the only
 * active tab and shows exactly the `.product-card`s of its category.
 * Attributes come from `getAttribute`, which yields null when the attribute
 * is missing; null is `None` here.
 */
module ProductFilter {
  import opened Wrappers

  /** A `.tab-button`: its `data-category` and its `active` class. */
  datatype TabButton = TabButton(category: Option<string>, active: bool)

  /** A `.product-card`: its `data-category` and its `hidden` and `show`
      classes. */
  datatype Card = Card(category: Option<string>, hidden: bool, show: bool)

  /** The filter test `category === 'all' || cardCategory === category`;
      `===` on two nulls holds. */
  predicate Selects(category: Option<string>, cardCategory: Option<string>)
  {
    category == Some("all") || cardCategory == category
  }

  /** The tab row once button `b` was clicked. */
  function ActivatedTabs(tabs: seq<TabButton>, b: nat): seq<TabButton>
    requires b < |tabs|
  {
    seq(|tabs|, i requires 0 <= i < |tabs| => tabs[i].(active := i == b))
  }

  /** A card once the filter for `category` has run over it. */
  function Filtered(card: Card, category: Option<string>): Card
  {
    if Selects(category, card.category) then card.(hidden := false, show := true)
    else card.(hidden := true, show := false)
  }

  /** The card list once the filter for `category` has run over it. */
  function FilteredCards(cards: seq<Card>, category: Option<string>): seq<Card>
  {
    seq(|cards|, i requires 0 <= i < |cards| => Filtered(cards[i], category))
  }

  /** How many tabs are active. */
  function ActiveTabCount(tabs: seq<TabButton>): nat
  {
    if tabs == [] then 0 else (if tabs[0].active then 1 else 0) + ActiveTabCount(tabs[1..])
  }

  /** The click handler of tab button `b`. */
  method ClickTab(tabs: array<TabButton>, cards: array<Card>, b: nat)
    requires b < tabs.Length
    modifies tabs, cards
    ensures tabs[..] == ActivatedTabs(old(tabs[..]), b)
    ensures cards[..] == FilteredCards(old(cards[..]), old(tabs[b].category))
  {
    var category := tabs[b].category;
    var i := 0;
    while i < tabs.Length
      modifies tabs
      invariant 0 <= i <= tabs.Length
      invariant forall k :: 0 <= k < i ==> tabs[k] == old(tabs[k]).(active := false)
      invariant forall k :: i <= k < tabs.Length ==> tabs[k] == old(tabs[k])
    {
      tabs[i] := tabs[i].(active := false);
      i := i + 1;
    }
    tabs[b] := tabs[b].(active := true);
    i := 0;
    while i < cards.Length
      modifies cards
      invariant 0 <= i <= cards.Length
      invariant forall k :: 0 <= k < i ==> cards[k] == Filtered(old(cards[k]), category)
      invariant forall k :: i <= k < cards.Length ==> cards[k] == old(cards[k])
    {
      if Selects(category, cards[i].category) {
        cards[i] := cards[i].(hidden := false, show := true);
      } else {
        cards[i] := cards[i].(hidden := true, show := false);
      }
      i := i + 1;
    }
  }

  lemma {:induction false} ActivatedTabsCount(tabs: seq<TabButton>, b: nat)
    requires b < |tabs|
    ensures ActiveTabCount(ActivatedTabs(tabs, b)) == 1
  {
    if b == 0 {
      NoneActive(ActivatedTabs(tabs, b)[1..]);
    } else {
      assert ActivatedTabs(tabs, b)[1..] == ActivatedTabs(tabs[1..], b - 1);
      ActivatedTabsCount(tabs[1..], b - 1);
    }
  }

  lemma {:induction false} NoneActive(tabs: seq<TabButton>)
    requires forall i :: 0 <= i < |tabs| ==> !tabs[i].active
    ensures ActiveTabCount(tabs) == 0
  {
    if tabs != [] {
      NoneActive(tabs[1..]);
    }
  }

  /** After a click, exactly the clicked button is active, and the tab row
      keeps its buttons and their categories. */
  lemma ClickedTabIsTheOnlyActive(tabs: seq<TabButton>, b: nat)
    requires b < |tabs|
    ensures ActiveTabCount(ActivatedTabs(tabs, b)) == 1
    ensures forall i :: 0 <= i < |tabs| ==>
      (ActivatedTabs(tabs, b)[i].active <==> i == b) &&
      ActivatedTabs(tabs, b)[i].category == tabs[i].category
  {
    ActivatedTabsCount(tabs, b);
  }

  /** After a click, a card is shown (`show` set, `hidden` cleared) if and
      only if the category is `all` or its own, and hidden otherwise; the two
      classes are never both set, and no card changes category. */
  lemma FilterShowsExactlyTheSelected(cards: seq<Card>, category: Option<string>)
    ensures |FilteredCards(cards, category)| == |cards|
    ensures forall i :: 0 <= i < |cards| ==>
      var c := FilteredCards(cards, category)[i];
      c.category == cards[i].category &&
      (c.show <==> Selects(category, cards[i].category)) &&
      c.hidden == !c.show
  {
  }

  /** The `all` tab shows every card; a category no card has hides them
      all. */
  lemma AllShowsEverything(cards: seq<Card>, category: Option<string>)
    ensures forall i :: 0 <= i < |cards| ==> FilteredCards(cards, Some("all"))[i].show
    ensures category != Some("all") && (forall i :: 0 <= i < |cards| ==> cards[i].category != category) ==>
      forall i :: 0 <= i < |cards| ==> FilteredCards(cards, category)[i].hidden
  {
  }

  /** Clicking the same tab twice leaves the page as one click did. */
  lemma ClickIsIdempotent(tabs: seq<TabButton>, cards: seq<Card>, b: nat)
    requires b < |tabs|
    ensures ActivatedTabs(ActivatedTabs(tabs, b), b) == ActivatedTabs(tabs, b)
    ensures ActivatedTabs(tabs, b)[b].category == tabs[b].category
    ensures FilteredCards(FilteredCards(cards, tabs[b].category), tabs[b].category)
         == FilteredCards(cards, tabs[b].category)
  {
  }
}
