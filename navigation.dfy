/**
 * The navigation state machine of the timeline page, on values: the fixed
 * order of periods, what `switchPeriod` does to the active flags of the nav
 * buttons and period sections and to `currentPeriod`, where an arrow key leads,
 * and the width of the progress bar.
 *
 * The page is abstracted to the `data-period` tags of its `.nav-btn` buttons and
 * of its `.timeline-period` sections, each in document order. The model assumes
 * that every nav button comes before every period section in the document and
 * that no other element carries a `data-period` attribute, so the unscoped
 * selector `[data-period="p"]` finds the first nav button tagged `p` when there
 * is one, and otherwise the first section tagged `p`.
 */
module Navigation {
  import opened Wrappers
  import opened Text

  /** The five periods, in the order the keyboard and the progress bar walk them. */
  const Periods: seq<string> := ["before", "april", "may", "july", "aftermath"]

  /** The period the controller starts in. */
  const InitialPeriod: string := "before"

  lemma PeriodsDistinct()
    ensures Distinct(Periods)
  {
  }

  // ---------------------------------------------------------------------------
  // Page structure and navigation state

  /** The `data-period` tags of the nav buttons and of the period sections. */
  datatype Page = Page(navPeriods: seq<string>, sectionPeriods: seq<string>)

  /** `currentPeriod` and the `active` class of every nav button and every section. */
  datatype NavState = NavState(current: string, navActive: seq<bool>, sectionActive: seq<bool>)

  /** One flag per nav button and one per section. */
  predicate Fits(page: Page, s: NavState) {
    |s.navActive| == |page.navPeriods| && |s.sectionActive| == |page.sectionPeriods|
  }

  /** `n` flags with only position `k` raised; all lowered when `k` is out of range (-1). */
  function OnlyAt(n: nat, k: int): (f: seq<bool>)
    ensures |f| == n
  {
    seq(n, j => j == k)
  }

  /** How many flags are raised. */
  function CountActive(f: seq<bool>): nat {
    if |f| == 0 then 0 else CountActive(f[..|f| - 1]) + (if f[|f| - 1] then 1 else 0)
  }

  lemma {:induction false} CountOnlyAt(n: nat, k: int)
    ensures CountActive(OnlyAt(n, k)) == if 0 <= k < n then 1 else 0
  {
    if n > 0 {
      assert OnlyAt(n, k)[..n - 1] == OnlyAt(n - 1, k);
      CountOnlyAt(n - 1, k);
    }
  }

  /** Exactly one flag is raised, and the element carrying it is tagged `period`. */
  predicate ExactlyOneActive(f: seq<bool>, tags: seq<string>, period: string)
    requires |f| == |tags|
  {
    CountActive(f) == 1 && forall j :: 0 <= j < |f| && f[j] ==> tags[j] == period
  }

  // ---------------------------------------------------------------------------
  // switchPeriod

  /** `switchPeriod(period)` runs to its end; otherwise a selector returns null and it throws. */
  predicate SwitchCompletes(page: Page, period: string) {
    period in page.sectionPeriods
  }

  /**
   * The state `switchPeriod(period)` leaves behind, including when it throws:
   * every nav button is cleared first; the element the unscoped selector finds
   * (nav button `n`, else section `k`) is activated; if there is none the call
   * throws before touching the sections. Otherwise every section is cleared,
   * section `k` is activated, and only then is `currentPeriod` written; if there
   * is no section `k` the call throws with all sections cleared.
   */
  function Switched(page: Page, s: NavState, period: string): (t: NavState)
    ensures Fits(page, s) ==> Fits(page, t)
  {
    var n := IndexOf(page.navPeriods, period);
    var k := IndexOf(page.sectionPeriods, period);
    NavState(
      if k >= 0 then period else s.current,
      OnlyAt(|page.navPeriods|, n),
      if k >= 0 then OnlyAt(|page.sectionPeriods|, k)
      else if n >= 0 then OnlyAt(|page.sectionPeriods|, -1)
      else s.sectionActive)
  }

  /** A period with both a nav button and a section: one of each is active, both tagged `period`. */
  lemma SwitchActivatesOne(page: Page, s: NavState, period: string)
    requires period in page.navPeriods && period in page.sectionPeriods
    ensures var t := Switched(page, s, period);
      && t.current == period
      && Fits(page, t)
      && ExactlyOneActive(t.navActive, page.navPeriods, period)
      && ExactlyOneActive(t.sectionActive, page.sectionPeriods, period)
  {
    var t := Switched(page, s, period);
    CountOnlyAt(|page.navPeriods|, IndexOf(page.navPeriods, period));
    CountOnlyAt(|page.sectionPeriods|, IndexOf(page.sectionPeriods, period));
  }

  /**
   * A tag the page does not carry at all: the call throws after clearing the nav
   * buttons, so no button is active, the sections are untouched and
   * `currentPeriod` keeps its value.
   */
  lemma SwitchUnknownTag(page: Page, s: NavState, period: string)
    requires period !in page.navPeriods && period !in page.sectionPeriods
    ensures var t := Switched(page, s, period);
      && !SwitchCompletes(page, period)
      && t.current == s.current
      && CountActive(t.navActive) == 0
      && t.sectionActive == s.sectionActive
  {
    CountOnlyAt(|page.navPeriods|, -1);
  }

  /** A nav button without a section: the call throws with that button active and every section cleared. */
  lemma SwitchWithoutSection(page: Page, s: NavState, period: string)
    requires period in page.navPeriods && period !in page.sectionPeriods
    ensures var t := Switched(page, s, period);
      && !SwitchCompletes(page, period)
      && t.current == s.current
      && ExactlyOneActive(t.navActive, page.navPeriods, period)
      && CountActive(t.sectionActive) == 0
  {
    CountOnlyAt(|page.navPeriods|, IndexOf(page.navPeriods, period));
    CountOnlyAt(|page.sectionPeriods|, -1);
  }

  /**
   * A section without a nav button: the selector falls through to the section,
   * so the call completes with that section active and no nav button active.
   */
  lemma SwitchSectionWithoutButton(page: Page, s: NavState, period: string)
    requires period !in page.navPeriods && period in page.sectionPeriods
    ensures var t := Switched(page, s, period);
      && SwitchCompletes(page, period)
      && t.current == period
      && CountActive(t.navActive) == 0
      && ExactlyOneActive(t.sectionActive, page.sectionPeriods, period)
  {
    CountOnlyAt(|page.navPeriods|, -1);
    CountOnlyAt(|page.sectionPeriods|, IndexOf(page.sectionPeriods, period));
  }

  /** Switching to the same period again changes nothing more. */
  lemma SwitchIdempotent(page: Page, s: NavState, period: string)
    ensures Switched(page, Switched(page, s, period), period) == Switched(page, s, period)
  {
  }

  /** `currentPeriod` is the initial period or the tag of some section. */
  predicate CurrentKnown(page: Page, s: NavState) {
    s.current == InitialPeriod || s.current in page.sectionPeriods
  }

  // ---------------------------------------------------------------------------
  // navigateWithKeyboard

  /**
   * The period an arrow key switches to from `current`, or None when the key
   * does nothing: ArrowRight moves one step on unless already at the last
   * period, ArrowLeft one step back unless at the first. A `current` outside
   * the list has index -1, from which ArrowRight leads to the first period.
   */
  function KeyTarget(key: string, current: string): (r: Option<string>)
    ensures r.Some? ==> r.value in Periods
  {
    var i := IndexOf(Periods, current);
    if key == "ArrowRight" && i < |Periods| - 1 then Some(Periods[i + 1])
    else if key == "ArrowLeft" && i > 0 then Some(Periods[i - 1])
    else None
  }

  lemma KeyRightSteps(k: nat)
    requires k < |Periods| - 1
    ensures KeyTarget("ArrowRight", Periods[k]) == Some(Periods[k + 1])
  {
    PeriodsDistinct();
    IndexOfDistinct(Periods, k);
  }

  lemma KeyLeftSteps(k: nat)
    requires 0 < k < |Periods|
    ensures KeyTarget("ArrowLeft", Periods[k]) == Some(Periods[k - 1])
  {
    PeriodsDistinct();
    IndexOfDistinct(Periods, k);
  }

  /** No wrap-around: right at the last period and left at the first do nothing. */
  lemma KeyClampsAtEnds()
    ensures KeyTarget("ArrowRight", Periods[|Periods| - 1]) == None
    ensures KeyTarget("ArrowLeft", Periods[0]) == None
  {
    PeriodsDistinct();
    IndexOfDistinct(Periods, |Periods| - 1);
  }

  /** From a tag outside the list, right goes to the first period and left does nothing. */
  lemma KeyFromUnknownPeriod(current: string)
    requires current !in Periods
    ensures KeyTarget("ArrowRight", current) == Some(Periods[0])
    ensures KeyTarget("ArrowLeft", current) == None
  {
  }

  /** Keys other than the two arrows do nothing. */
  lemma KeyOtherDoesNothing(key: string, current: string)
    requires key != "ArrowRight" && key != "ArrowLeft"
    ensures KeyTarget(key, current) == None
  {
  }

  /** A step right from any period but the last is undone by a step left, and vice versa. */
  lemma KeyLeftUndoesRight(k: nat)
    requires k < |Periods| - 1
    ensures KeyTarget("ArrowLeft", KeyTarget("ArrowRight", Periods[k]).value) == Some(Periods[k])
    ensures KeyTarget("ArrowRight", KeyTarget("ArrowLeft", Periods[k + 1]).value) == Some(Periods[k + 1])
  {
    KeyRightSteps(k);
    KeyLeftSteps(k + 1);
  }

  /** The state `navigateWithKeyboard(key)` leaves behind. */
  function Navigated(page: Page, s: NavState, key: string): (t: NavState)
    ensures Fits(page, s) ==> Fits(page, t)
  {
    match KeyTarget(key, s.current)
    case None => s
    case Some(p) => Switched(page, s, p)
  }

  /** Both transitions keep `currentPeriod` at the initial period or a section's tag. */
  lemma TransitionsKeepCurrentKnown(page: Page, s: NavState, period: string, key: string)
    requires CurrentKnown(page, s)
    ensures CurrentKnown(page, Switched(page, s, period))
    ensures CurrentKnown(page, Navigated(page, s, key))
  {
  }

  /** On a page whose sections carry only the five periods, `currentPeriod` stays one of them. */
  lemma CurrentStaysAPeriod(page: Page, s: NavState)
    requires CurrentKnown(page, s)
    requires forall p :: p in page.sectionPeriods ==> p in Periods
    ensures s.current in Periods
  {
  }

  /** ArrowRight from a period other than the last moves to the next one, when the page has it. */
  lemma NavigateRight(page: Page, s: NavState, k: nat)
    requires k < |Periods| - 1 && s.current == Periods[k]
    requires Periods[k + 1] in page.navPeriods && Periods[k + 1] in page.sectionPeriods
    ensures var t := Navigated(page, s, "ArrowRight");
      && t.current == Periods[k + 1]
      && ExactlyOneActive(t.navActive, page.navPeriods, Periods[k + 1])
      && ExactlyOneActive(t.sectionActive, page.sectionPeriods, Periods[k + 1])
  {
    KeyRightSteps(k);
    SwitchActivatesOne(page, s, Periods[k + 1]);
  }

  /** ArrowLeft from a period other than the first moves to the previous one, when the page has it. */
  lemma NavigateLeft(page: Page, s: NavState, k: nat)
    requires 0 < k < |Periods| && s.current == Periods[k]
    requires Periods[k - 1] in page.navPeriods && Periods[k - 1] in page.sectionPeriods
    ensures var t := Navigated(page, s, "ArrowLeft");
      && t.current == Periods[k - 1]
      && ExactlyOneActive(t.navActive, page.navPeriods, Periods[k - 1])
      && ExactlyOneActive(t.sectionActive, page.sectionPeriods, Periods[k - 1])
  {
    KeyLeftSteps(k);
    SwitchActivatesOne(page, s, Periods[k - 1]);
  }

  /** At either end, and for any other key, the whole state is unchanged. */
  lemma NavigateNoOp(page: Page, s: NavState, key: string)
    requires || (key == "ArrowRight" && s.current == Periods[|Periods| - 1])
             || (key == "ArrowLeft" && s.current == Periods[0])
             || (key == "ArrowLeft" && s.current !in Periods)
             || (key != "ArrowRight" && key != "ArrowLeft")
    ensures Navigated(page, s, key) == s
  {
    KeyClampsAtEnds();
  }

  // ---------------------------------------------------------------------------
  // Progress bar

  /** The progress bar's width in percent for `period`: `(periods.indexOf(period) + 1) * 20`. */
  function ProgressWidth(period: string): (w: int)
    ensures period !in Periods ==> w == 0
    ensures period in Periods ==> 20 <= w <= 100 && w % 20 == 0
  {
    (IndexOf(Periods, period) + 1) * 20
  }

  /** The k-th period fills (k + 1) fifths of the bar. */
  lemma ProgressWidthOf(k: nat)
    requires k < |Periods|
    ensures ProgressWidth(Periods[k]) == (k + 1) * 20
  {
    PeriodsDistinct();
    IndexOfDistinct(Periods, k);
  }

  /** The width grows strictly with period order. */
  lemma ProgressWidthOrdered(i: nat, j: nat)
    requires i < j < |Periods|
    ensures ProgressWidth(Periods[i]) == (i + 1) * 20
    ensures ProgressWidth(Periods[i]) < ProgressWidth(Periods[j])
  {
    ProgressWidthOf(i);
    ProgressWidthOf(j);
  }
}
