# Rwanda genocide timeline: a verified model of the navigation core

The timeline page is a static HTML document driven by one script. The script's
`RwandaTimeline` controller keeps one piece of state, `currentPeriod`. It switches
between five periods of the timeline (`before`, `april`, `may`, `july`,
`aftermath`) in response to nav-button clicks and the left/right arrow keys. It
expands and collapses the details of timeline items, highlights an item by id and
searches the items' text. Around it sit small free functions: the tooltip label
of a marker (`getEventType`), the width of the progress bar, and the digit parse
of the animated statistics counters.

This project models that core in Dafny. The DOM is abstracted to plain data:

- the `data-period` tags of the nav buttons and of the period sections (`Navigation.Page`);
- one `active` flag per nav button and per section;
- the timeline items, each with its text, its `h3` title, the period that encloses it, whether it has a `.details` block, and its optional `data-event` id (`Document.Item`);
- per item, the `hidden` class of its details and its `expanded` class.

Modules:

- `Text` (text.dfy): `indexOf`, `String.prototype.includes` and ASCII `toLowerCase`.
- `Navigation` (navigation.dfy): the navigation state machine on values. It holds the period order, the state `switchPeriod` leaves behind (also when it throws), where an arrow key leads, and the progress-bar width.
- `Document` (document.dfy): the timeline items and the search over them.
- `EventTypes` (event_types.dfy): the ordered first-match lookup of a marker's label.
- `Counter` (counter.dfy): the digit parse of a counter's final text and the frames its interval writes.
- `Timeline` (timeline.dfy): the `RwandaTimeline` class, whose fields are `currentPeriod` and arrays of flags, and the progress bar as a class with a `width` field. Each method is proved against the value-level function of its module.

Assumptions about the page:

- Every nav button precedes every period section in document order.
- No other element carries `data-period`.
- Every `.timeline-item` contains an `h3` and sits inside a `.timeline-period` that carries `data-period`. Otherwise, for an item that matches the query, script.js:187 (no enclosing period) or script.js:188 (no `h3`) throws a `TypeError` out of `searchEvents`, and a period without `data-period` reports a null period. `Document.Item` therefore always has a period string and a title.
- Only timeline items carry `data-event`, so the document-wide lookup of `highlightEvent` (script.js:166) finds a timeline item.

So the unscoped selector `[data-period="p"]` in `switchPeriod` finds the first nav button tagged `p`, or, when there is none, the first section tagged `p`.

`switchPeriod` does not check its argument. When a selector finds nothing, the
script throws a `TypeError` part-way through, and the effects made so far remain.
The model returns `completed == false` in that case and states the partial state
exactly:

- With no element tagged `p` at all, every nav button is cleared, the sections are untouched and `currentPeriod` keeps its value.
- With a nav button but no section, that button is active, every section is cleared and `currentPeriod` keeps its value.

With a section but no nav button tagged `p`, the call completes: that section is
active, no nav button is, and `currentPeriod` becomes `p`.

One might expect an unknown tag to leave the view unchanged; the code does not,
since it clears every nav button before it fails (`Navigation.SwitchUnknownTag`).
One might also expect the intermediate counter values to increase strictly. They
do for targets of 59 and more (`Counter.TickStrictFrom59`). For every target from
1 to 58 some value repeats (`Counter.TickRepeatsBelow59`, `Counter.TickCanRepeat`),
and a zero target shows its final text at the first tick.

## Model

| member | source | states |
|---|---|---|
| Text.IndexOf | script.js:74 | `indexOf`: -1 exactly when the element is absent, otherwise a position holding it with no earlier one |
| Text.Includes | script.js:184 | the scan `includes` finds a needle only in a haystack at least as long |
| Text.IncludesIffOccurs | script.js:184 | the `includes` scan holds exactly when the needle occurs at some position of the haystack |
| Text.IncludesEmpty | script.js:184 | every text includes the empty query |
| Text.ToLower | script.js:183-184 | lowercasing keeps the length, maps each ASCII letter A-Z to its lower-case letter at the same alphabet position, keeps every other character, and leaves no upper-case ASCII letter |
| Text.ToLowerIdempotent | script.js:184 | lowercasing twice equals lowercasing once |
| Navigation.PeriodsDistinct | script.js:73 | the five periods are pairwise different, so `indexOf` finds each at its own position |
| Navigation.Switched | script.js:40-53 | the flags after `switchPeriod` keep one entry per nav button and per section |
| Navigation.SwitchActivatesOne | script.js:40-53 | for a tag with a nav button and a section: exactly one nav button and one section are active, both tagged with it, and `currentPeriod` is it |
| Navigation.SwitchUnknownTag | script.js:42-45 | for a tag no element carries: the call throws, no nav button is active, the sections and `currentPeriod` are unchanged |
| Navigation.SwitchWithoutSection | script.js:42-51 | for a tag with a nav button but no section: the call throws with that button alone active, no section active and `currentPeriod` unchanged |
| Navigation.SwitchSectionWithoutButton | script.js:42-53 | for a tag with a section but no nav button: the call completes, `currentPeriod` is the tag, no nav button is active and exactly one section, tagged with it, is |
| Navigation.SwitchIdempotent | script.js:40-53 | switching to the same tag a second time changes nothing further |
| Navigation.KeyTarget | script.js:72-86 | an arrow key only ever leads to one of the five periods |
| Navigation.KeyRightSteps | script.js:77-78 | ArrowRight from period k < 4 leads to period k + 1 |
| Navigation.KeyLeftSteps | script.js:79-80 | ArrowLeft from period k > 0 leads to period k - 1 |
| Navigation.KeyClampsAtEnds | script.js:77-80 | ArrowRight at `aftermath` and ArrowLeft at `before` do nothing (no wrap-around) |
| Navigation.KeyFromUnknownPeriod | script.js:74-80 | from a tag outside the list (index -1) ArrowRight leads to `before` and ArrowLeft does nothing |
| Navigation.KeyOtherDoesNothing | script.js:77-85 | any key other than the two arrows does nothing |
| Navigation.KeyLeftUndoesRight | script.js:77-80 | a step right is undone by a step left and a step left by a step right, away from the ends |
| Navigation.Navigated | script.js:72-86 | the flags after `navigateWithKeyboard` keep one entry per nav button and per section |
| Navigation.TransitionsKeepCurrentKnown | script.js:5-84 | both transitions keep `currentPeriod` equal to `before` or to the tag of some section |
| Navigation.CurrentStaysAPeriod | script.js:5-53 | on a page whose sections carry only the five periods, `currentPeriod` is always one of them |
| Navigation.NavigateRight | script.js:72-86 | ArrowRight from period k < 4 makes period k + 1 current, with exactly one nav button and one section active, both tagged with it |
| Navigation.NavigateLeft | script.js:72-86 | ArrowLeft from period k > 0 makes period k - 1 current, with exactly one nav button and one section active, both tagged with it |
| Navigation.NavigateNoOp | script.js:77-85 | at either end, from an unknown tag with ArrowLeft, and for other keys, the whole state is unchanged |
| Navigation.ProgressWidth | script.js:346-347 | the width is 0 for a tag outside the list and a multiple of 20 between 20 and 100 for the five periods |
| Navigation.ProgressWidthOf | script.js:326-347 | period k has width (k + 1) * 20, so `aftermath` has 100 |
| Navigation.ProgressWidthOrdered | script.js:326-347 | period k has width (k + 1) * 20, so the width grows strictly with period order |
| Document.Search | script.js:178-193 | the hits are at most as many as the items, and each names an item's position |
| Document.SearchSoundAndOrdered | script.js:182-190 | every hit is an item whose lowercased text contains the lowercased query, reported with that item's period and title, and hits come in document order |
| Document.SearchComplete | script.js:182-190 | every item whose lowercased text contains the lowercased query is among the hits |
| Document.SearchEmptyQuery | script.js:179-193 | the empty query returns every item, in document order |
| Document.SearchCaseInsensitive | script.js:183-184 | the query's letter case does not change the hits |
| Document.SearchNoMatch | script.js:182-193 | a query contained in no item yields no hits |
| EventTypes.FirstMatchingKey | script.js:288-292 | -1 exactly when no key occurs in the class name, otherwise a key that occurs with no earlier key occurring |
| EventTypes.EventTypeOf | script.js:273-294 | the label is the default or the label of a key that occurs in the class name |
| EventTypes.GetEventType | script.js:273-294 | the loop returns the label of the first key in table order that occurs, or the default label |
| EventTypes.EventTypeFirstMatch | script.js:288-291 | the first key in table order that occurs decides the label |
| EventTypes.EventTypeDefaultIff | script.js:288-293 | `Historisk begivenhed` is returned exactly when no key occurs |
| EventTypes.TableOrderDecidesOverlap | script.js:274-292 | in "massacre genocide" both keys occur and table order makes it a genocide event |
| Counter.DigitsOnly | script.js:366 | stripping leaves only decimal digits, never lengthens the text, and leaves nothing exactly when the text has no digit |
| Counter.DigitsOnlyAppend | script.js:366 | stripping a concatenation is the concatenation of the stripped parts |
| Counter.DigitsOnlyFixes | script.js:366 | a text of digits only is left as it is, and a text without digits strips to the empty text |
| Counter.CleanValue | script.js:366 | the parse is NaN (`None`) exactly when the text has no digit |
| Counter.NumeralValue | script.js:366 | parsing a number's decimal numeral gives the number back |
| Counter.CleanValueOfDecorated | script.js:366 | a numeral with a digit-free prefix such as "~" and suffix such as "%" parses to its number |
| Counter.CleanValueIgnoresSeparator | script.js:366 | a non-digit anywhere, such as a thousands separator, does not change the parsed value |
| Counter.CleanValueWithSeparator | script.js:366 | "800,000" parses as 800000 |
| Counter.Tick | script.js:366-387 | a tick shows NaN exactly when the final text has no digit, so such a counter never finishes; a finished tick shows the final text verbatim |
| Counter.TickFinalIff | script.js:367-376 | the counter finishes exactly at tick 60 (at tick 1 for a zero target) and then shows its final text verbatim |
| Counter.TickCountingBelowTarget | script.js:373-378 | before finishing, the counter shows a whole number from 0 up to below the target |
| Counter.TickNondecreasing | script.js:372-378 | the shown value never decreases from one tick to a later one |
| Counter.TickCanRepeat | script.js:372-378 | for the target 50 ticks 6 and 7 both show 5, so shown values are not strictly increasing |
| Counter.TickStrictFrom59 | script.js:372-378 | for targets of 59 and more each tick before the last shows a larger value than the one before |
| Counter.TickRepeatsBelow59 | script.js:372-378 | for every target from 1 to 58 two consecutive ticks show the same value |
| Timeline.Toggled | script.js:57-69 | with details, `hidden` flips and the item is expanded exactly when the details are shown; without, nothing changes |
| Timeline.ToggleTwice | script.js:57-69 | toggling twice restores the details' visibility, and both flags when they agreed to begin with |
| Timeline.RwandaTimeline.constructor | script.js:4-7 | a new controller starts at `before` over the page's markup as loaded |
| Timeline.RwandaTimeline.SwitchPeriod | script.js:40-55 | the new state is the `Switched` transition of the old one; it completes exactly when a section carries the tag, and when a nav button carries it too, exactly one button and one section are active, both tagged with it |
| Timeline.RwandaTimeline.NavigateWithKeyboard | script.js:72-86 | the new state is the `Navigated` transition of the old one |
| Timeline.RwandaTimeline.ToggleDetails | script.js:57-70 | the item's flags become their `Toggled` value and no other item changes |
| Timeline.RwandaTimeline.HighlightEvent | script.js:165-175 | with no item carrying the id nothing changes; otherwise the first such item is scrolled to and highlighted, and nothing else |
| Timeline.RwandaTimeline.SearchEvents | script.js:178-194 | the loop returns exactly the matching items, in document order, each with its period and title |
| Timeline.ProgressIndicator.constructor | script.js:325-340 | the bar starts at the width of `before`, 20 percent |
| Timeline.ProgressIndicator.OnClick | script.js:343-349 | a click on a nav button sets the width of that button's period, and any other click leaves it |

## Left out

- Animations and timers: `animateOnLoad`, `animateTimelineItems` (which `switchPeriod` calls last), the tooltip lifetime, and the interval timing of `animateNumber`. They only restyle elements over time.
- Timeline.RwandaTimeline.HighlightEvent: the 2000 ms timeout that clears the highlight is not modelled, so the highlight flag stays raised.
- Counter.Tick: the running value is an exact real number, not a double. With repeated floating-point addition the last tick can come one step later. The `~`, `%` and `toLocaleString` formatting of intermediate frames is not modelled; a frame carries the shown number only.
- Counter.CleanValue: `parseInt` returns a double, exact up to 2^53 and `Infinity` beyond about 1.8e308 (a digit string of more than about 309 digits, after which the counter would finish at the first tick); the model parses to an unbounded natural number.
- Text.ToLower: only the ASCII letters A-Z are lowercased; full Unicode case mapping is not modelled.
- Document.Item: an item's `textContent` is an opaque string; how it is composed from the date, title, description and details is not modelled.
- Timeline.RwandaTimeline.SwitchPeriod: the thrown `TypeError` is modelled as `completed == false`; the global error handler that logs it is not modelled.
- DOM construction and styling: `showTooltip`, `hideTooltip`, `setupThemeToggle`, `setupPrintButton` (which calls `window.print`), the skip-navigation link, and the `innerHTML` templating of `addTimelineEvent`.
- `setupAccessibility`: its key handler calls `timeline`, a local of another `DOMContentLoaded` callback, so the wiring cannot run. Were it wired, it would toggle the details as `toggleDetails` does, also set `aria-expanded`, and throw for an item without `.details` (script.js:511).
- Event-listener registration (`bindEvents`), console logging, `performance.now`, and the global error handler.
- `updateStatistics`: it reads each counter's text and hands it to `animateNumber`; only the parse and the frames of `animateNumber` are modelled.
- Static content: `historicalData` and the unused `loadAdditionalContent`.
