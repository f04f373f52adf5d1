# ScholarHub listing, navigation and reveal logic in Dafny

This project models the browser-side logic of the ScholarHub scholarship site
and proves properties of the model. The logic lives in three scripts.

- `js/scholarships.js` holds the listing page. It keeps a fixed catalog of six
  records and filters them by a lower-cased search term, a category and a
  level. It then sorts by amount (high or low) or by deadline. It renders one
  card per record, or an empty state when nothing matches, and it updates the
  "Found N scholarships" label. A clear button resets the controls. The search
  input is debounced by 300 ms.
- `js/main.js` holds the navigation. It covers:
  - the light/dark theme, kept in storage, and its toggle icon;
  - the mobile menu;
  - a row of dropdowns that react to clicks, hovering and outside clicks, with
    one shared hide-timer handle;
  - marking the links to the current page as active;
  - the back-to-top button.
- `js/animations.js` holds the one-shot reveals. It covers:
  - the scroll-animate observer;
  - the statistic counters: where their target comes from and when they start;
  - `formatNumber`;
  - the staggered reveal of grid children.

Files:

- `decimal.dfy` (module `Decimal`): digit strings, `Number#toString` for
  naturals and text order on digit strings.
- `js_text.dfy` (modules `Optional` and `JsText`): the JavaScript string
  built-ins the scripts use.
  - ASCII `toLowerCase` and `includes`.
  - `replace` with a string pattern, which replaces only the first occurrence.
  - `replace(/[^0-9]/g, '')`.
  - The decimal subsets of `parseFloat` and `parseInt`, with `None` for NaN.
- `catalog.dfy` (module `Catalog`): the records, the filter predicate, the
  amount and date sort keys and the three sort options.
- `sorting.dfy` (module `Sorting`): `Array.prototype.sort`, which is stable.
  It is specified by a functional insertion sort over a key, and implemented
  by an in-place method on an array that is proved equal to it.
- `debounce.dfy` (module `Debounce`): `debounce`, both as a step function over
  explicit time and as the closure object holding its pending timer.
- `catalog_view.dfy` (module `CatalogView`): the listing page as a class. It
  covers the controls, the filter-and-sort pass into a new array, rendering,
  the count label, clearing and the debounced search input.
- `navigation.dfy` (module `Navigation`): the navigation.
  - Theme, mobile menu, dropdown row and back-to-top are classes.
  - The dropdown row is also a value with one step function per event, so
    that sequences of events can be stated as lemmas.
  - Current page and active links are covered too.
- `animations.dfy` (module `Animations`): the observers are classes with
  `observed` and `animated` sets. It also holds `formatNumber`, the counter
  target and the stagger schedule.

Time is an explicit integer clock in milliseconds. A timer is a record that
the event loop runs once it is due. An observer notification is a sequence of
entries, each naming an element and whether it intersects. Page elements are
numbers. Storage, the document's `data-theme` attribute and element classes
are fields.

`parseFloat` gives NaN for an amount it cannot read, and the comparator then
returns NaN, which has no defined order. The model therefore requires every
record to have a parseable amount and an ISO date (`ListingPage.Valid`), and
proves that the shipped catalog meets this (`CatalogView.CatalogKeyed`). The second
test on `js/main.js:62`, for an empty page name, is unreachable, because the
page name is never empty (`Navigation.CurrentPage`).

## Model

| member | source | states |
|---|---|---|
| Decimal.NatToString | js/scholarships.js:140 | A count prints as a canonical numeral with no leading zero, one digit long exactly when it is below ten |
| Decimal.NatToStringRoundTrip | js/scholarships.js:140 | Reading a printed count back gives the count |
| Decimal.NatToStringInjective | js/scholarships.js:140 | Different counts print differently |
| Decimal.CanonicalRoundTrip | js/scholarships.js:140 | Every canonical numeral is what its own value prints as |
| Decimal.LexLessIsNumeric | js/scholarships.js:167-168 | For digit strings of equal length, text order is numeric order |
| JsText.ToLower | js/scholarships.js:146 | Lower-casing keeps the length, lowers each letter and leaves no upper-case letter |
| JsText.IncludesTrivial | js/scholarships.js:152-153 | Every text includes the empty term and itself |
| JsText.RemoveFirst | js/scholarships.js:162 | `replace(c, '')` leaves text without `c` unchanged and otherwise drops exactly one character |
| JsText.RemoveFirstAt | js/scholarships.js:162 | The character dropped is the first occurrence, and the rest is kept in place |
| JsText.KeepDigits | js/animations.js:60 | The result holds exactly the digits of the text and nothing else, is no longer than it, and a digit string is unchanged |
| JsText.KeepDigitsAppend | js/animations.js:60 | Removing non-digits works piecewise over concatenation |
| JsText.DigitPrefix | js/scholarships.js:162-163 | The longest leading run of digits, stopped by the first non-digit |
| JsText.ParseFloat | js/scholarships.js:162-163 | On unsigned decimal text, `parseFloat` is NaN when the text is empty or starts with neither a digit nor a point, and any number it gives is non-negative |
| JsText.ParseFloatDecimal | js/scholarships.js:162-163 | `parseFloat` of a decimal numeral reads its whole part plus its digits after the point as a fraction |
| JsText.ParseFloatIgnoresTail | js/scholarships.js:162-163 | Text after a leading integer numeral does not change what `parseFloat` reads |
| JsText.DigitPrefixStops | js/scholarships.js:162-163 | The digit run of digits followed by a non-digit is exactly those digits |
| JsText.ParseInt | js/animations.js:60 | `parseInt('')` is NaN, and text starting with a digit reads as the value of its leading digits |
| JsText.ParseIntNegative | js/animations.js:60 | A '-' before digits gives the negated number, and a '-' alone is NaN |
| JsText.ParseIntPositive | js/animations.js:60 | A '+' before digits gives the number, and a '+' alone is NaN |
| JsText.ParseIntDigits | js/animations.js:60 | `parseInt` of a non-empty digit string is the number it spells |
| Catalog.ReadControls | js/scholarships.js:146-149 | A pass reads the lower-cased search text, or '' without a search box, and each selector's value, or 'all', 'all', 'default' when it is absent |
| Catalog.Matches | js/scholarships.js:151-158 | A record matches iff the term occurs in its lower-cased title or description, and the category and level are 'all' or equal to its own |
| Catalog.Filter | js/scholarships.js:151-158 | A record is kept iff its lower-cased title or description contains the term and the category and level are 'all' or equal; the result is never longer |
| Catalog.FilterIsSubsequence | js/scholarships.js:151-158 | The filtered list is a subsequence of the catalog, in catalog order |
| Catalog.FilterAppend | js/scholarships.js:151-158 | Filtering works piecewise over concatenation |
| Catalog.FilterKeepsAll | js/scholarships.js:151-158 | When every record matches, filtering returns the list unchanged |
| Catalog.UnknownSelectorSelectsNothing | js/scholarships.js:154-155 | A category or level that no record carries gives the empty list, not all records |
| Catalog.DollarAmount | js/scholarships.js:162-166 | "$" + digits + "," + digits, followed by a non-numeric tail, parses to the number the digits spell |
| Catalog.AmountParses | js/scholarships.js:162-166 | An amount written like "$10,000" parses to the number its digits spell |
| Catalog.SecondSeparatorIgnored | js/scholarships.js:162-166 | Only the first ',' is removed, so "$1,000,000" parses like "$1,000" |
| Catalog.MeritKeyed | js/scholarships.js:11-12 | The record has both sort keys: its amount reads as 10000 and its deadline is an ISO date |
| Catalog.StemKeyed | js/scholarships.js:21-22 | The record has both sort keys: its amount reads as 15000 and its deadline is an ISO date |
| Catalog.CommunityKeyed | js/scholarships.js:31-32 | The record has both sort keys: its amount reads as 8000 and its deadline is an ISO date |
| Catalog.InternationalKeyed | js/scholarships.js:41-42 | The record has both sort keys: its amount reads as 12000 and its deadline is an ISO date |
| Catalog.ArtsKeyed | js/scholarships.js:51-52 | The record has both sort keys: its amount reads as 9000 and its deadline is an ISO date |
| Catalog.FirstGenerationKeyed | js/scholarships.js:61-62 | The record has both sort keys: its amount reads as 7500 and its deadline is an ISO date |
| CatalogView.CatalogMembers | js/scholarships.js:6-67 | The shipped catalog holds exactly the six records |
| CatalogView.CatalogKeyed | js/scholarships.js:6-67 | Every shipped record has a parseable amount and an ISO deadline, which the listing page requires |
| Catalog.DeadlineOrderIsTextOrder | js/scholarships.js:167-168 | For ISO dates, date order is text order |
| Catalog.OrderOf | js/scholarships.js:160-169 | Exactly 'amount-high', 'amount-low' and 'deadline' pick a sort; every other value leaves filter order |
| Catalog.AmountValue | js/scholarships.js:162-166 | The amount the comparators read, after removing the first '$' and then the first ','; any value it gives is non-negative |
| Catalog.IsIsoDate | js/scholarships.js:168 | The deadlines `new Date` reads as calendar dates: "YYYY-MM-DD" with month 01-12 and day 01-31 |
| Catalog.DateKey | js/scholarships.js:168 | A date key exists iff the deadline is an ISO date, and it is an eight-digit number YYYYMMDD |
| Catalog.SortKey | js/scholarships.js:161-168 | An amount key exists iff the amount parses, and a date key iff the deadline is an ISO date |
| Sorting.WithKey | js/scholarships.js:161-169 | The records with a given key, in order; each one has that key and comes from the list |
| Sorting.Insert | js/scholarships.js:161-169 | Inserting one keyed element gives a keyed list one longer |
| Sorting.InsertionSort | js/scholarships.js:161-169 | The sort keeps length and keys |
| Sorting.InsertPermutes | js/scholarships.js:161-169 | Inserting adds exactly the element to the multiset |
| Sorting.InsertionSortPermutes | js/scholarships.js:161-169 | Sorting is a permutation |
| Sorting.InsertSorted | js/scholarships.js:161-169 | Inserting into a sorted list keeps it sorted |
| Sorting.InsertionSortSorted | js/scholarships.js:161-169 | The sort's output is non-decreasing in the key |
| Sorting.WithKeyAppend | js/scholarships.js:161-169 | Selecting by key works piecewise over concatenation |
| Sorting.InsertWithKey | js/scholarships.js:161-169 | Inserting places the element after every element with an equal key |
| Sorting.InsertionSortStable | js/scholarships.js:161-169 | Records with equal keys keep their relative order, as the stable `Array.prototype.sort` requires |
| Sorting.SortedUnique | js/scholarships.js:161-169 | Two sorted lists with the same records per key, in the same order, are equal |
| Sorting.StableSortIsUnique | js/scholarships.js:161-169 | Any sorted list that keeps each key's records in order is this sort's output, so the model fixes the one result a stable sort may give |
| Sorting.InsertionSortOfSorted | js/scholarships.js:161-169 | Sorting an already sorted list changes nothing |
| Sorting.InsertAt | js/scholarships.js:161-169 | Insertion puts the element after the last smaller-or-equal key and before the greater ones |
| Sorting.InsertInPlace | js/scholarships.js:161-169 | The in-place step leaves the prefix equal to the functional insertion and the rest of the array untouched |
| Sorting.SortInPlace | js/scholarships.js:161-169 | Sorting the array in place gives the functional sort's result; it is sorted and a permutation |
| Debounce.OnInput | js/scholarships.js:220-221 | A call replaces any pending timer with one due `wait` later, carrying the call's arguments |
| Debounce.OnClock | js/scholarships.js:216-218 | A timer runs `func` iff it is due, with its own arguments, and is then gone; otherwise nothing changes |
| Debounce.Run | js/scholarships.js:213-223 | The pending timer after a sequence of calls and event-loop moments, and the arguments of each run of `func`, in order |
| Debounce.RunsAtMostOncePerCall | js/scholarships.js:213-223 | `func` runs at most once per call, plus once for a timer already pending |
| Debounce.RunAppend | js/scholarships.js:213-223 | Running two event sequences one after the other is running their concatenation |
| Debounce.Clocks | js/scholarships.js:213-223 | The clock events for a list of moments, one per moment, in order |
| Debounce.EarlyClocksRunNothing | js/scholarships.js:221 | Moments before the timer is due run nothing and keep the timer |
| Debounce.BurstRunsNothing | js/scholarships.js:213-223 | During a burst of calls less than `wait` apart, `func` never runs, and one timer is left, due `wait` after the last call with its arguments |
| Debounce.BurstRunsOnceWithLastArgs | js/scholarships.js:213-223 | After the burst, the first moment at or past the due time runs `func` exactly once, with the last call's arguments |
| Debounce.Debouncer.constructor | js/scholarships.js:214 | A fresh debounced function has no pending timer |
| Debounce.Debouncer.Call | js/scholarships.js:215-222 | A call sets the pending timer to the one `OnInput` gives |
| Debounce.Debouncer.Tick | js/scholarships.js:216-219 | The event loop runs the pending timer exactly as `OnClock` says |
| CatalogView.Visible | js/scholarships.js:151-169 | One pass of `filterScholarships`: the matching records in catalog order, sorted stably when the sort value is one of the three orders |
| CatalogView.VisibleMembers | js/scholarships.js:151-169 | A record is shown iff it is in the catalog and matches the controls, whatever the sort |
| CatalogView.UnsortedKeepsCatalogOrder | js/scholarships.js:160-169 | Any other sort value shows the filtered records in catalog order |
| CatalogView.SortedVisible | js/scholarships.js:160-169 | A chosen sort gives a list sorted by its key that is a permutation of the filtered list and keeps filter order among equal keys |
| CatalogView.AmountHighDescends | js/scholarships.js:161-163 | 'amount-high' shows parsed amounts non-increasing |
| CatalogView.AmountLowAscends | js/scholarships.js:164-166 | 'amount-low' shows parsed amounts non-decreasing |
| CatalogView.DeadlineAscends | js/scholarships.js:167-168 | 'deadline' shows deadlines non-decreasing, in text order |
| CatalogView.ClearedControls | js/scholarships.js:194-197 | Cleared controls read like '', 'all', 'all', 'default', and like a page without those controls |
| CatalogView.ClearShowsCatalog | js/scholarships.js:192-199 | After clearing, the whole catalog is shown in its own order |
| CatalogView.DetailHref | js/scholarships.js:117 | A card's link is `scholarship-detail.html?id=` followed by the id's decimal numeral |
| CatalogView.DetailHrefRoundTrip | js/scholarships.js:117 | The detail link's `id` query reads back as the record's id |
| CatalogView.CardOf | js/scholarships.js:107-120 | A card carries its record's id, and its link leads back to it |
| CatalogView.Render | js/scholarships.js:96-120 | The empty state iff there are no records; otherwise one card per record, in order, each linking to its id |
| CatalogView.CountLabel | js/scholarships.js:138-142 | "Found N scholarship" for one and "Found N scholarships" otherwise |
| CatalogView.CountLabelReadsBack | js/scholarships.js:138-142 | Different counts give different labels, and a label ends in 's' iff the count is not one |
| CatalogView.FilterAndSort | js/scholarships.js:151-169 | A pass builds a new array holding exactly the visible list |
| CatalogView.ListingPage.constructor | js/scholarships.js:202-204 | The first render shows the whole catalog with its count, and nothing is pending |
| CatalogView.ListingPage.Refilter | js/scholarships.js:145-173 | The result array becomes the visible list for the current controls, and the view and label follow it |
| CatalogView.ListingPage.Select | js/scholarships.js:180-190 | A selector change stores the value and refilters |
| CatalogView.ListingPage.Type | js/scholarships.js:176-178 | Typing stores the text and only schedules a refilter 300 ms later; nothing is shown yet |
| CatalogView.ListingPage.Tick | js/scholarships.js:216-219 | A due search timer refilters once; otherwise nothing changes |
| CatalogView.ListingPage.Clear | js/scholarships.js:192-199 | Each control the page has is reset to '', 'all', 'all' or 'default' and each absent one stays absent; the catalog is shown with the same view and label as the first render |
| Navigation.InitialTheme | js/main.js:8 | The stored theme when present and non-empty, else 'light' |
| Navigation.NextTheme | js/main.js:17 | The next theme is 'light' iff the current one is 'dark', and always 'light' or 'dark' |
| Navigation.ToggleTwice | js/main.js:15-22 | Two toggles restore the theme iff it was 'light' or 'dark' |
| Navigation.ThemeIcon | js/main.js:26-31 | The icon is the sun iff the theme is 'dark', else the moon |
| Navigation.Theme.constructor | js/main.js:6-13 | On load the theme is the initial one, storage is untouched and the icon matches |
| Navigation.Theme.Toggle | js/main.js:15-22 | A toggle sets the attribute and the stored value to the next theme and keeps the icon in step |
| Navigation.MobileMenu.constructor | js/main.js:38-41 | Page load only registers the listeners: the menu's open state and the toggle's text are the ones the markup gives |
| Navigation.MobileMenu.Toggle | js/main.js:42-45 | The toggle flips the menu and shows the cross iff it is open |
| Navigation.MobileMenu.DocumentClick | js/main.js:48-53 | A click outside both the menu and the toggle closes the menu and resets the icon; other clicks change nothing |
| Navigation.Cancel | js/main.js:98 | `clearTimeout(h)` removes exactly the timers with handle `h` |
| Navigation.Clicked | js/main.js:93-108 | A click on item `i` cancels the timer the shared handle names, closes the others and flips `i` |
| Navigation.Entered | js/main.js:114-117 | `mouseenter` on item `i` cancels the named timer and opens `i` |
| Navigation.Left | js/main.js:120-124 | `mouseleave` on item `i` adds a 100 ms hide timer for `i` whose handle overwrites the shared one |
| Navigation.TimerRan | js/main.js:121-123 | A hide timer that runs closes its item and is gone |
| Navigation.ClickedOutside | js/main.js:130-137 | A click outside every dropdown cancels the named timer and closes all items |
| Navigation.ClickActive | js/main.js:100-108 | After a click on item `i`, every other item is closed and `i` is flipped |
| Navigation.ClickLeavesAtMostOne | js/main.js:100-108 | Right after a click at most one dropdown is open, the clicked one |
| Navigation.OverwrittenTimerStillCloses | js/main.js:114-124 | After two mouse-leaves, entering the first item again leaves it open with its hide timer still pending, because only the newest handle is cancelled |
| Navigation.StaleTimerCloses | js/main.js:121-123 | When a pending hide timer runs, its item closes |
| Navigation.DropdownRow.constructor | js/main.js:78-85 | On load every dropdown is closed and no timer is pending |
| Navigation.DropdownRow.Click | js/main.js:93-109 | A link click cancels the named timer, closes the others and flips its item |
| Navigation.DropdownRow.CloseOthersAndFlip | js/main.js:100-108 | The loop over the items closes all but `i` and flips `i` |
| Navigation.DropdownRow.Enter | js/main.js:114-117 | Entering cancels the named timer and opens the item |
| Navigation.DropdownRow.Leave | js/main.js:120-124 | Leaving schedules a 100 ms hide timer and overwrites the shared handle |
| Navigation.DropdownRow.RunTimer | js/main.js:121-123 | A due hide timer closes its item and is gone |
| Navigation.DropdownRow.DocumentClick | js/main.js:130-137 | A click outside every dropdown cancels the named timer and closes all; a click inside changes nothing |
| Navigation.DropdownRow.MobileDocumentClick | js/main.js:140-149 | On mobile, a click outside the menu and the navbar actions closes all without touching timers |
| Navigation.DropdownRow.CloseAll | js/main.js:133-135 | The loop closes every item |
| Navigation.LastSegment | js/main.js:57 | The text after the last '/', or all of the path when there is no '/' |
| Navigation.LastSegmentUnique | js/main.js:57 | That is the only '/'-free suffix that follows a '/' or starts the path |
| Navigation.LinkMatches | js/main.js:60-61 | A link matches iff its href is the page, or the page is empty and its href is 'index.html' |
| Navigation.CurrentPage | js/main.js:57 | The page is the last segment, or 'index.html' when that is empty; never empty |
| Navigation.MarkedActive | js/main.js:59-74 | The marking keeps the link count; each link is active afterwards iff it was already, or some link to the page is it or has it as its dropdown parent |
| Navigation.UnrelatedLinkUnchanged | js/main.js:60-75 | A link that is not the page and not the parent of a link to it keeps its state |
| Navigation.MarkActiveLinks | js/main.js:56-75 | A link ends up active iff it was, or its href is the page, or it is the parent of a link whose href is the page |
| Navigation.MarkPageLinks | js/main.js:59-74 | The loop over the links leaves each link marked as the full marking for the page says |
| Navigation.BackToTop.constructor | js/main.js:183-184 | Page load only registers the scroll listener: the button's visibility is the one the markup gives |
| Navigation.BackToTop.Scroll | js/main.js:186-192 | The button is visible iff the offset is above 300 |
| Animations.Intersecting | js/animations.js:12-19 | The intersecting targets are among the entries' targets |
| Animations.RevealObserver.constructor | js/animations.js:21-24 | The observer starts by observing every scroll-animate element |
| Animations.RevealObserver.Notify | js/animations.js:12-19 | Intersecting targets gain `animated` and stop being observed; the others stay observed; `animated` only grows |
| Animations.RevealedAtMostOnce | js/animations.js:12-19 | When notifications name only observed elements, no element is revealed by two notifications |
| Animations.Starts | js/animations.js:61 | A counter starts only for a target that is a number other than 0 |
| Animations.StatSeen | js/animations.js:59-65 | An intersecting entry with a starting target sets the text to "0", unobserves the stat and starts the counter; otherwise nothing changes |
| Animations.CounterNotified | js/animations.js:58-67 | The entries of one notification applied in order, each intersecting one as `StatSeen` |
| Animations.CounterTarget | js/animations.js:60 | With neither `data-target` nor a digit in the text, the target is NaN |
| Animations.CounterTargetFromText | js/animations.js:60 | Without `data-target`, the target is the number the text's digits spell |
| Animations.StatSeenOnce | js/animations.js:59-65 | Without `data-target`, a second intersection after a start changes nothing, because the text is then "0" |
| Animations.UnobservedOnlyWhenCounting | js/animations.js:59-65 | A stat stops being observed exactly when its counter starts, and only with a non-zero target |
| Animations.NoDigitsNeverStarts | js/animations.js:60-61 | A stat with no digits and no `data-target` never starts and stays observed |
| Animations.StatCounter.constructor | js/animations.js:70 | Each stat starts observed, with no counter running |
| Animations.StatCounter.Notify | js/animations.js:57-67 | The callback applies one start attempt per intersecting entry, in order |
| Animations.IntToString | js/animations.js:51 | `toString` of an integer reads back as the integer, with a '-' before negatives |
| Animations.FormatNumber | js/animations.js:45-52 | Ends in 'M' iff the number is at least a million, in 'K' iff it is from a thousand to below a million, and is the plain numeral below a thousand |
| Animations.OneDecimal | js/animations.js:47-49 | `toFixed(1)` of a non-negative number in tenths: digits, a point and one digit |
| Animations.OneDecimalReadsBack | js/animations.js:47-49 | The one-decimal text reads back as the tenths it was made from |
| Animations.FormatThousandsReadsBack | js/animations.js:48-49 | In the thousands, the text before 'K' reads back within half a tenth of n/1000, and exactly for multiples of 100 |
| Animations.FormatMillionsReadsBack | js/animations.js:46-47 | In the millions, the text before 'M' reads back within half a tenth of n/1000000, and exactly for multiples of 100000 |
| Animations.FormatExamples | js/animations.js:45-52 | 12500 shows as "12.5K" and 950 as "950" |
| Animations.Schedule | js/animations.js:149-166 | One reveal timer per element, in order |
| Animations.ScheduleIncreasing | js/animations.js:160-164 | Element `i` is revealed `i * delay` after the call, so reveal times strictly increase when the delay is positive |
| Animations.Stagger.Run | js/animations.js:149-166 | Only elements not yet `animated` get the hidden style; every element gets its timer; `animated` is unchanged |
| Animations.Stagger.Fire | js/animations.js:160-164 | A due reveal shows its element and adds `animated` |
| Animations.Ready | js/animations.js:173-176 | The grid observer acts on an entry iff it intersects and its grid has children |
| Animations.ReadyGrids | js/animations.js:171-179 | Only intersecting grids are unobserved |
| Animations.ChildlessGridStaysObserved | js/animations.js:175-178 | A grid without children is never unobserved |
| Animations.GridObserver.constructor | js/animations.js:183-185 | The observer starts by observing every grid |
| Animations.GridHidden | js/animations.js:171-178 | The children given the hidden style never include one already `animated` |
| Animations.GridObserver.Handle | js/animations.js:172-179 | One entry: a ready grid stops being observed, its children not yet `animated` get the hidden style and each child gets its reveal timer; any other entry changes nothing |
| Animations.GridObserver.Notify | js/animations.js:171-180 | Intersecting grids with children stop being observed, their children not yet `animated` get the hidden style and every child gets its reveal timer; `animated` is unchanged and the other grids stay observed |

## Left out

- HTML templating and `innerHTML` writes. A card is a record of the fields it
  shows and its link.
- `formatDate` and the deadline text on a card, which depend on `Date` and
  locale formatting.
- The Unicode rules of `toLowerCase`. Only ASCII letters are lowered.
- Amounts that do not parse and dates that are not ISO dates. The code has no
  defined order for them, since its comparator returns NaN. The page requires
  every record to have both keys. The deadline key is the number YYYYMMDD,
  which orders valid dates as `Date` does; calendar validity beyond the digit
  shape is not checked.
- Floating point in `parseFloat` and `parseInt`. Numerals are read exactly,
  while JavaScript rounds them to the nearest double. Amounts or targets
  beyond about 15 significant digits or 2^53, which JavaScript can treat as
  equal, are told apart here: `parseInt("9007199254740993")` and
  `parseInt("9007199254740992")` are equal in JavaScript, and "$10,000" and
  "$10,000.0000000000001" tie under its comparator. No shipped value is
  affected.
- `parseFloat` and `parseInt` beyond plain decimal numerals, such as
  exponents, hex, leading spaces and Infinity, and a leading sign for
  `parseFloat`. The amount key only passes it catalog text with the "$"
  removed, which never has a sign.
- The second observer that `renderScholarships` creates 100 ms after each
  render, and IntersectionObserver geometry (thresholds, root margins).
  Whether an element intersects is an input.
- Real timers and the event loop's ordering. Timers are records that run
  when the model says the loop reaches them.
- The per-tick arithmetic of `animateCounter` (floating-point increments on
  a 16 ms interval). The model records only the target a counter starts with.
- Animations.FormatNumber: rounds a tenth that lies exactly halfway upward on
  the exact quotient, while `toFixed` rounds the nearest double. For some
  such inputs the two differ: the double nearest 1.15 lies below it, so
  `toFixed` gives "1.1K" for 1150 where the model gives "1.2K". Results for
  multiples of 100 (K) and 100000 (M) are exact.
- The `animated` class is one per element on the page, but the scroll
  reveal, the stagger and the grid observer each keep their own `animated`
  set. An element that one of them marks is not seen as marked by the others.
- `js/animations.js:168-169` creates the grid observer only when some grid
  has a child. `Animations.GridObserver.constructor` observes every grid
  regardless, which no later step can tell apart, because a childless grid
  is never unobserved and never staggered.
- Parallax, card hover glow, button ripples, the page-load fade and smooth
  scrolling: geometry, floating point and style effects only.
- `localStorage` as a store. The stored theme is a field.
- Form validation, `showMessage` and loading classes in `js/main.js`, which
  are browser UI.
- The filter-panel toggle (`js/scholarships.js:85-90`), which only flips two
  classes.
- The back-to-top button's scroll to the top, a browser scroll.
- A click on a dropdown link stops propagation, so it reaches no document
  handler. The model treats that click and document clicks as separate
  events, and leaves it to the caller not to send both for one click.
- Dropdown items without a `.has-dropdown` link get no listeners. The
  `linked` flags require a link for clicks and hovering.
