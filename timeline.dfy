/**
 * The `RwandaTimeline` controller and the progress bar, as objects whose state
 * the page's event handlers change in place: `currentPeriod`, the `active`
 * class of every nav button and every period section, the `hidden` and
 * `expanded` classes of every timeline item, and the highlight of an item.
 * Each method is specified by the value-level transition it performs
 * (module Navigation) or by the search it computes (module Document).
 */
module Timeline {
  import opened Wrappers
  import opened Text
  import opened Navigation
  import opened Document

  /** The classes `toggleDetails` touches: `hidden` on the item's `.details`, `expanded` on the item. */
  datatype ItemFlags = ItemFlags(hidden: bool, expanded: bool)

  /**
   * `toggleDetails` on one item: with a `.details` block, its `hidden` class
   * flips and the item is marked expanded exactly when the details are now
   * shown; without one, nothing changes.
   */
  function Toggled(hasDetails: bool, f: ItemFlags): (g: ItemFlags)
    ensures !hasDetails ==> g == f
    ensures hasDetails ==> g.hidden == !f.hidden && g.expanded == !g.hidden
  {
    if hasDetails then ItemFlags(!f.hidden, f.hidden) else f
  }

  /** Toggling twice restores the details' visibility, and restores both flags when they agreed to begin with. */
  lemma ToggleTwice(hasDetails: bool, f: ItemFlags)
    ensures Toggled(hasDetails, Toggled(hasDetails, f)).hidden == f.hidden
    ensures (hasDetails ==> f.expanded == !f.hidden) ==> Toggled(hasDetails, Toggled(hasDetails, f)) == f
  {
  }

  class RwandaTimeline {
    /** The `data-period` tags of the nav buttons and the period sections. */
    const page: Page
    /** Every `.timeline-item`, in document order. */
    const items: seq<Item>

    var currentPeriod: string
    const navActive: array<bool>
    const sectionActive: array<bool>
    const itemFlags: array<ItemFlags>
    /** Whether the item's background carries the highlight colour. */
    const highlighted: array<bool>
    /** The item last scrolled into view. */
    var scrolledTo: Option<nat>

    ghost predicate Valid()
      reads this
    {
      && navActive.Length == |page.navPeriods|
      && sectionActive.Length == |page.sectionPeriods|
      && itemFlags.Length == |items|
      && highlighted.Length == |items|
      && navActive != sectionActive && navActive != highlighted && sectionActive != highlighted
      && (currentPeriod == InitialPeriod || currentPeriod in page.sectionPeriods)
    }

    /** The navigation part of the state, as a value. */
    function State(): (s: NavState)
      reads this, navActive, sectionActive
      ensures Valid() ==> Fits(page, s) && CurrentKnown(page, s)
    {
      NavState(currentPeriod, navActive[..], sectionActive[..])
    }

    /** The controller on a freshly loaded page whose markup has the given classes. */
    constructor (page: Page, items: seq<Item>, navActive: seq<bool>, sectionActive: seq<bool>, itemFlags: seq<ItemFlags>)
      requires |navActive| == |page.navPeriods| && |sectionActive| == |page.sectionPeriods|
      requires |itemFlags| == |items|
      ensures Valid()
      ensures this.page == page && this.items == items
      ensures State() == NavState(InitialPeriod, navActive, sectionActive)
      ensures this.itemFlags[..] == itemFlags
      ensures this.highlighted[..] == seq(|items|, _ => false) && scrolledTo == None
      ensures fresh(this.navActive) && fresh(this.sectionActive) && fresh(this.itemFlags) && fresh(this.highlighted)
    {
      this.page := page;
      this.items := items;
      this.navActive := new bool[|navActive|](j requires 0 <= j < |navActive| => navActive[j]);
      this.sectionActive := new bool[|sectionActive|](j requires 0 <= j < |sectionActive| => sectionActive[j]);
      this.itemFlags := new ItemFlags[|itemFlags|](j requires 0 <= j < |itemFlags| => itemFlags[j]);
      this.highlighted := new bool[|items|](_ => false);
      currentPeriod := InitialPeriod;
      scrolledTo := None;
    }

    /**
     * `switchPeriod(period)`: clear every nav button, activate the element the
     * unscoped `[data-period]` selector finds, clear every section, activate the
     * section tagged `period`, then record `period`. `completed` is false when a
     * selector finds nothing and the call throws, leaving what it did so far.
     */
    method SwitchPeriod(period: string) returns (completed: bool)
      requires Valid()
      modifies this`currentPeriod, navActive, sectionActive
      ensures Valid()
      ensures completed == SwitchCompletes(page, period)
      ensures State() == Switched(page, old(State()), period)
      ensures period in page.navPeriods && period in page.sectionPeriods ==>
        && currentPeriod == period
        && ExactlyOneActive(navActive[..], page.navPeriods, period)
        && ExactlyOneActive(sectionActive[..], page.sectionPeriods, period)
    {
      ghost var s0 := State();
      var i := 0;
      while i < navActive.Length
        modifies navActive
        invariant 0 <= i <= navActive.Length
        invariant forall j :: 0 <= j < i ==> !navActive[j]
      {
        navActive[i] := false;
        i := i + 1;
      }
      var n := IndexOf(page.navPeriods, period);
      if n >= 0 {
        navActive[n] := true;
      } else {
        var first := IndexOf(page.sectionPeriods, period);
        if first < 0 {
          assert navActive[..] == OnlyAt(navActive.Length, n);
          return false;
        }
        sectionActive[first] := true;
      }
      assert navActive[..] == OnlyAt(navActive.Length, n);
      i := 0;
      while i < sectionActive.Length
        modifies sectionActive
        invariant 0 <= i <= sectionActive.Length
        invariant forall j :: 0 <= j < i ==> !sectionActive[j]
      {
        sectionActive[i] := false;
        i := i + 1;
      }
      var k := IndexOf(page.sectionPeriods, period);
      if k < 0 {
        assert sectionActive[..] == OnlyAt(sectionActive.Length, -1);
        return false;
      }
      sectionActive[k] := true;
      assert sectionActive[..] == OnlyAt(sectionActive.Length, k);
      currentPeriod := period;
      completed := true;
      if period in page.navPeriods {
        SwitchActivatesOne(page, s0, period);
      }
    }

    /**
     * `navigateWithKeyboard(key)`: from the index of `currentPeriod` in the
     * fixed order, ArrowRight picks the next period unless at the last, ArrowLeft
     * the previous unless at the first, and the pick, if any, is switched to.
     */
    method NavigateWithKeyboard(key: string)
      requires Valid()
      modifies this`currentPeriod, navActive, sectionActive
      ensures Valid()
      ensures State() == Navigated(page, old(State()), key)
    {
      var currentIndex := IndexOf(Periods, currentPeriod);
      var newIndex: Option<nat> := None;
      if key == "ArrowRight" && currentIndex < |Periods| - 1 {
        newIndex := Some(currentIndex + 1);
      } else if key == "ArrowLeft" && currentIndex > 0 {
        newIndex := Some(currentIndex - 1);
      }
      if newIndex.Some? {
        var _ := SwitchPeriod(Periods[newIndex.value]);
      }
    }

    /** `toggleDetails(item)` on the item at position `i` of the document. */
    method ToggleDetails(i: nat)
      requires Valid() && i < |items|
      modifies itemFlags
      ensures Valid()
      ensures itemFlags[..] == old(itemFlags[..])[i := Toggled(items[i].hasDetails, old(itemFlags[i]))]
    {
      if items[i].hasDetails {
        var hidden := !itemFlags[i].hidden;
        itemFlags[i] := itemFlags[i].(hidden := hidden);
        if !hidden {
          itemFlags[i] := itemFlags[i].(expanded := true);
        } else {
          itemFlags[i] := itemFlags[i].(expanded := false);
        }
      }
    }

    /**
     * `highlightEvent(eventId)`: the first item whose `data-event` is `eventId` is
     * scrolled into view and highlighted; with no such item nothing happens.
     */
    method HighlightEvent(eventId: string)
      requires Valid()
      modifies this`scrolledTo, highlighted
      ensures Valid()
      ensures (forall j :: 0 <= j < |items| ==> items[j].eventId != Some(eventId)) ==>
        scrolledTo == old(scrolledTo) && highlighted[..] == old(highlighted[..])
      ensures var k := IndexOf(EventIds(items), Some(eventId));
        0 <= k ==>
          && items[k].eventId == Some(eventId)
          && scrolledTo == Some(k)
          && highlighted[..] == old(highlighted[..])[k := true]
    {
      var k := IndexOf(EventIds(items), Some(eventId));
      if k >= 0 {
        scrolledTo := Some(k);
        highlighted[k] := true;
      }
    }

    /** `searchEvents(query)`: one hit per item whose lowercased text contains the lowercased query. */
    method SearchEvents(query: string) returns (results: seq<Match>)
      ensures results == Search(items, query)
      ensures HitsInOrder(items, query, results)
      ensures forall j :: 0 <= j < |items| && ItemMatches(items[j], query) ==>
        exists k :: 0 <= k < |results| && results[k].index == j
    {
      results := [];
      for i := 0 to |items|
        invariant results == Search(items[..i], query)
      {
        var item := items[i];
        var content := ToLower(item.text);
        assert items[..i + 1][..i] == items[..i];
        if Includes(content, ToLower(query)) {
          results := results + [Match(i, item.period, item.title)];
        }
      }
      assert items[..|items|] == items;
      SearchSoundAndOrdered(items, query);
      forall j | 0 <= j < |items| && ItemMatches(items[j], query)
        ensures exists k :: 0 <= k < |results| && results[k].index == j
      {
        SearchComplete(items, query, j);
      }
    }
  }

  /**
   * The progress bar: created at the width of the first period, and resized on
   * every click whose target is a nav button to the width of that button's
   * period. Keyboard navigation does not reach it.
   */
  class ProgressIndicator {
    /** The bar's width, in percent. */
    var width: int

    constructor ()
      ensures width == ProgressWidth(InitialPeriod) && width == 20
    {
      width := (IndexOf(Periods, InitialPeriod) + 1) * 20;
    }

    /** The document-wide click listener. */
    method OnClick(targetIsNavButton: bool, targetPeriod: string)
      modifies this
      ensures width == if targetIsNavButton then ProgressWidth(targetPeriod) else old(width)
    {
      if targetIsNavButton {
        var index := IndexOf(Periods, targetPeriod);
        width := (index + 1) * 20;
      }
    }
  }
}
