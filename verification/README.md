# Consult-Pro page script: the decision logic, in Dafny

The page script `main.js` of the Consult-Pro consulting site mostly wires the
DOM to event handlers. A few of its pieces, however, make decisions that do
not depend on the browser. This project lifts those pieces out as pure Dafny
functions over strings, integers and sequences, and proves what they do:

- **Blog list** (`Blog`): the view state `(filter, search, visible)`. Also
  the listing `renderPosts` derives from it: category test, substring search
  on lower-cased title or excerpt, a prefix of `visible` posts, and the
  load-more control. Plus the four handlers: category button, search, load
  more and page button.
- **Case-study grid** (`CaseStudies`): `renderCards` and its "all" wildcard
  and placeholder.
- **Number counters** (`Counter`): how a counter picks its target
  (`data-target`, else its own text, else 100). Also the `update` tick
  `min(current + ceil(target / 200), target)`, and the whole chain of ticks.
  `parseInt` is modelled on decimal and hexadecimal input; `Math.ceil` on
  exact integers.
- **Contact form** (`ContactForm`): the blank-field check and the address
  pattern `^[^\s@]+@[^\s@]+\.[^\s@]+$`.
- **Active navigation link** (`NavLinks`): `pathname.split('/').pop()`, the
  `'index.html'` default, and the `active` class on the links.
- **Button groups** (`Classes`): the "clear every `active`, then set the
  clicked one" pattern. The case-study filters, the blog categories and the
  blog page buttons all follow it.

Supporting modules:

- `Optional` holds the `Option` type. It stands for an attribute or element
  that may be missing.
- `Text` holds the ECMAScript whitespace class, `trim`, ASCII `toLowerCase`
  and `includes`.
- `Listing` holds `filter` (with its subsequence property), `slice(0, n)`,
  and a grid that either shows cards or a placeholder.
- `Search` holds the search-text normalisation.

Class lists are sets of class names. A render's output is the sequence of
items shown, or the placeholder, not HTML.

Two points about the code that the model keeps as they are:

- "Load more" adds 3 to `visibleCount` on every click with no upper clamp,
  so the cursor goes 6, 9, 12, ... even when fewer posts match. Only the
  rendering is bounded, through `slice` (`Blog.Handle`,
  `Blog.LoadMoreFromStart`).
- The counter's increment `Math.ceil(target / 200)` has no guard against 0.
  The tick as written (`Counter.UpdateAsWritten`) is proved never to stop
  below a target of 0 or less. The chain of ticks (`Counter.Steps`) uses the
  tick with the increment raised to at least 1 (`Counter.Update`). That tick
  equals the script's for every positive target, and for every target the
  fallback picks without a readable `data-target` (see "Findings").

## Model

| member | source | states |
|---|---|---|
| Listing.Filter | main.js:279-284 | The kept elements all pass the test and come from the input. Every input element that passes is kept. The result is a subsequence of the input, so declaration order is kept. |
| Listing.FilterKeepsEveryCopy | main.js:279-284 | Every copy of a passing element is kept and no copy of any other, so with the subsequence property the result is fixed. |
| Listing.FilterAppend | main.js:279-284 | Filtering distributes over concatenation. |
| Listing.FilterAll | main.js:279-284 | When every element passes, filtering returns the whole sequence. |
| Listing.FilterNone | main.js:214-216 | When no element passes, filtering returns nothing. |
| Listing.Take | main.js:286 | `slice(0, n)` gives a prefix of length `min(n, length)`. |
| Listing.TakeMonotone | main.js:286 | A longer slice extends a shorter one. |
| Blog.FilteredMembership | main.js:279-284 | A post is listed iff its category matches (or the filter is "all") and the search text occurs in its lower-cased title or excerpt. The listing is a subsequence of the posts. |
| Blog.EmptySearchMatchesAll | main.js:281-282 | The empty search text matches every post. |
| Blog.Render | main.js:286-308 | The grid is the placeholder iff no post matches or `visible` is 0. In that case the load-more control is untouched. Otherwise the cards are the first `min(visible, matches)` matching posts. The control is shown iff some matching post is still hidden. |
| Blog.Handle | main.js:314-359 | A category click sets the filter and resets the cursor to 6. A search stores the trimmed, lower-cased input and resets to 6; with no input element it does nothing. Load more adds exactly 3, with no clamp. A page click only resets to 6. Every handler keeps the other fields. |
| Blog.CursorResetsOnPredicateChange | main.js:314-359 | A change of filter or search text always comes with a reset of the cursor. From a reachable cursor, only load more can grow it. |
| Blog.InitialReachable | main.js:274-276 | The initial state `("all", "", 6)` satisfies the state invariant. |
| Blog.HandleKeepsCursorInvariant | main.js:314-359 | Every handler keeps the cursor at least 6 and a multiple of 3. |
| Blog.HandleKeepsSearchNormalized | main.js:327 | Every handler keeps the stored search text trimmed and lower-case. |
| Blog.HandlePreservesReachable | main.js:314-359 | Every handler keeps the state invariant. |
| Blog.LoadMoreExtends | main.js:344-348 | Load more never hides a shown post: the old cards are a prefix of the new ones. |
| Blog.InitialShowsAllPosts | main.js:274-284 | In the initial state all nine fixture posts are listed. |
| Blog.InitialRender | main.js:274-311 | The first render shows posts 1 to 6 and the load-more control. |
| Blog.LoadMoreFromStart | main.js:344-348 | One click shows all nine posts and hides the control. A second click moves the cursor to 12 and shows the same posts. |
| Blog.SearchIgnoresCaseAndPadding | main.js:325-331 | Searching " AI " stores the same text as searching "ai". |
| CaseStudies.RenderCards | main.js:213-219 | "all", or a button without `data-filter`, shows every study. Any other filter shows exactly the studies of that category, in order. The placeholder appears iff no study has the category. |
| CaseStudies.FinanceSelected | main.js:198-205 | Of the fixture studies, exactly the first two are in "finance". |
| CaseStudies.FinanceExample | main.js:213-219 | The "finance" button shows the first two studies. |
| CaseStudies.NoMatchExample | main.js:213-218 | A category no study has shows only the placeholder. |
| Classes.ClearActive | main.js:244 | Removing `active` from every button leaves no button active and no other class changed. |
| Classes.ActivateOnly | main.js:244-245 | After a click, exactly the clicked button is active, and no other class changed. |
| Classes.LastClickWins | main.js:244-245 | A second click erases every trace of the first. |
| Text.TrimStart | main.js:376-378 | Only leading whitespace is removed, and the result does not start with whitespace. |
| Text.TrimStartIsSuffix | main.js:376-378 | What is kept is the tail of the input. |
| Text.TrimEnd | main.js:376-378 | Only trailing whitespace is removed, and what is kept is a prefix of the input. |
| Text.Trim | main.js:376-378 | The result is a contiguous part of the input with only whitespace before and after it, and it has no whitespace at either end. It is empty iff the input is all whitespace. |
| Text.TrimStrips | main.js:376-378 | What trimming keeps starts where the leading whitespace ends, and only whitespace follows it. |
| Text.TrimIdempotent | main.js:327 | Trimming twice is trimming once. |
| Text.TrimNoop | main.js:327 | A string with no whitespace at its ends is its own trim. |
| Text.LowerChar | main.js:281-282 | Lower-casing maps A-Z to a-z (32 code points up) and keeps every other character. |
| Text.ToLower | main.js:281-282 | Length is kept, and each character becomes its lower-case letter (A-Z move 32 code points up; all else is kept), so no upper-case letter remains and whitespace stays in place. |
| Text.ToLowerIdempotent | main.js:327 | Lower-casing twice is lower-casing once. |
| Text.Contains | main.js:281-282 | `includes` holds iff the text occurs at some index. |
| Text.ContainsEmpty | main.js:281-282 | The empty text occurs in every string. |
| Search.NormalizeShape | main.js:327 | A stored search text is no longer than the input, has no upper-case letter and no whitespace at either end. It is empty iff the input was blank. |
| Search.NormalizeIdempotent | main.js:327 | Normalising a stored search text again leaves it unchanged. |
| Search.NormalizePaddedUpper | main.js:327 | " AI " is stored as "ai". |
| Search.NormalizeLower | main.js:327 | "ai" is stored as "ai". |
| Counter.DigitPrefixLength | main.js:60 | `parseInt` reads the longest run of digits of the radix. |
| Counter.ParseDecimal | main.js:60 | Parsing the decimal rendering of any integer gives that integer back. |
| Counter.ReadBack | main.js:60-65 | The next tick reads back exactly the number a tick wrote. |
| Counter.SelectTarget | main.js:53-57 | A parseable `data-target` is the target. Otherwise a nonzero number read from the text is the target, and an unreadable or zero text gives 100, so the target is never 0. An absent attribute parses as "null". |
| Counter.FallbackTargetIsSafe | main.js:53-60 | Without a readable `data-target` the target is positive or equals the starting number, so the script's tick is the guarded one. |
| Counter.SelectTargetFromNumbers | main.js:53-57 | A numeric `data-target` wins whatever the text. Without the attribute a nonzero number in the text is the target, and "0" gives 100. |
| Counter.CeilDiv | main.js:61 | `Math.ceil(x / d)` is the unique `q` with `d(q-1) < x <= dq`. |
| Counter.CeilDivUnique | main.js:61 | Any `q` with `d(q-1) < x <= dq` equals `ceil(x / d)`. |
| Counter.Inc | main.js:61 | The increment is at least 1 for a positive target and at most 0 otherwise. |
| Counter.UpdateAsWritten | main.js:59-70 | At or above the target a tick writes the target and stops. Below it, a tick writes `current + inc` when that is below the target and the target otherwise, and schedules another tick. For a positive target it strictly rises. |
| Counter.AsWrittenStalls | main.js:59-70 | Below a non-positive target, every tick schedules another and the number never rises. |
| Counter.AsWrittenStandsStill | main.js:59-70 | When the increment is 0, every tick below the target writes the starting number again and schedules another, for ever. |
| Counter.AsWrittenStallExample | main.js:53-70 | `data-target="-10"` gives the target -10; with text "-20" the increment is 0 and tick n, for every n, writes -20 and schedules another. |
| Counter.GuardedInc | main.js:61 | The guarded increment is at least 1 and equals the script's for every positive target. |
| Counter.Update | main.js:59-70 | Below the target a tick writes `current + inc` (with `inc` at least 1) when that is below the target and the target otherwise, so it strictly rises and schedules another tick. At or above, it writes the target and stops. |
| Counter.UpdateAgrees | main.js:54-70 | For every positive target, the guarded tick is the script's tick. |
| Counter.Steps | main.js:59-72 | The rising ticks strictly increase, stay above the start and at or below the target, and end exactly at the target. |
| Counter.Animate | main.js:59-72 | Everything a counter displays, with the guarded tick, ends on exactly the target and never exceeds it. |
| Counter.RunAsWrittenFollowsSteps | main.js:59-72 | For a positive target the script's own chain of ticks writes exactly the numbers of `Steps`, each tick scheduling the next. |
| Counter.ScriptTickOnStep | main.js:59-66 | For a positive target, the script's tick from one rising step writes the next. |
| Counter.RunAsWrittenReachesTarget | main.js:59-72 | For a positive target the script's chain stops one tick after the last rising step, with exactly the target displayed. |
| Counter.StepsFollowUpdate | main.js:59-66 | Each step is `Update` applied to what the previous tick wrote and the next tick read back. |
| Counter.StepCount | main.js:61-66 | The chain has exactly `ceil((target - current) / inc)` rising ticks, so it terminates. |
| Counter.StepsByOne | main.js:61-64 | For a target of at most 200 the counter counts up by one. |
| Counter.AnimateFromZero | main.js:60 | A counter whose text reads "0" starts its chain at 0. |
| Counter.CountUpFromZero | main.js:59-72 | From "0" to a target of at most 200 the counter shows 1, 2, ..., target, then the target again. |
| Counter.CountTo37 | main.js:59-72 | A counter from "0" to 37 shows 1, 2, ..., 37, then 37 again. |
| ContactForm.PatternHasShape | main.js:387 | A match of the address pattern has no whitespace, exactly one '@' with something before it, and a '.' strictly inside the domain. |
| ContactForm.ShapeMatchesPattern | main.js:387 | An address of that shape matches the pattern. |
| ContactForm.PatternIffShape | main.js:387-388 | The pattern holds iff the address has that shape. |
| ContactForm.Submit | main.js:376-394 | A blank field (absent or all whitespace) is reported first, whatever the address. With all three filled in, the trimmed address is refused iff it lacks the shape. Only a well-formed submission reaches the success branch. |
| ContactForm.EmptyNameRefused | main.js:381-384 | An empty name is refused even with a good address. |
| ContactForm.AddressWithoutAtRefused | main.js:386-391 | "not-an-email" is refused. |
| ContactForm.WellFormedAccepted | main.js:376-394 | "a@b.com" with the other fields filled in is accepted. |
| ContactForm.GoodAddress | main.js:377-388 | "a@b.com" is filled in, is its own trim and has the address shape. |
| ContactForm.GoodAddressShape | main.js:387-388 | "a@b.com" has the address shape. |
| NavLinks.Split | main.js:410 | `split('/')` gives at least one piece, none with a slash, and joining them with '/' gives the input back. |
| NavLinks.SplitJoin | main.js:410 | Splitting a join of slash-free pieces gives the pieces back. |
| NavLinks.LastSegmentFollowsLastSlash | main.js:410 | `pop()` returns exactly the text after the last slash, or the whole path when it has none. |
| NavLinks.CurrentPage | main.js:410 | The page name is never empty and holds no slash, so it is never "/". |
| NavLinks.SetActiveLinks | main.js:412-421 | Afterwards a link is active iff its `href` equals the page name. The "" and "/" branches never fire. Hrefs and other classes are kept. |
| NavLinks.SetActiveLinksIdempotent | main.js:424-430 | Running the highlighter again after a link click changes nothing. |
| NavLinks.HomeExamples | main.js:410 | "/" and "" both name "index.html". |
| NavLinks.BlogPageExample | main.js:410 | "/blog.html" names "blog.html". |

## Left out

- Loader fade, carousel scrolling, back-to-top smooth scroll, mobile menu and
  FAQ accordion: DOM and animation side effects with no decision logic.
- Scroll progress percentage: floating-point division over browser metrics.
- Timers and observers (`setTimeout`, `IntersectionObserver`, the one-shot
  `animationStarted` flag): the counter is modelled as its chain of ticks,
  and the success message's 4-second hide is not modelled.
- HTML templates, `console`, `alert`, `form.reset` and the
  `safeGetElement`/`safeQuerySelector*` wrappers. A missing element or
  attribute becomes `None`, and a render yields the item sequence.
- UTF-16 code units: a Dafny `string` is a sequence of Unicode scalar
  values, while `trim`, `includes`, `split('/')` and a regular expression
  without the `u` flag work on UTF-16 code units, and a lone surrogate
  cannot be written as a Dafny string. On every string the model can hold,
  none of the decisions modelled here depend on that difference.
- Text.ToLower: lower-cases only the ASCII letters A-Z, not the full Unicode
  case mapping of `toLowerCase`.
- Counter.ParseDecimal: `parseInt` is on exact integers. The rounding of
  numbers above 2^53 and the exponent notation of numbers of 10^21 and more
  are not modelled.
- Counter.CeilDiv: exact integer ceiling, not the floating-point `Math.ceil`
  of a double quotient.
- Counter.Animate: describes the chain with the guarded tick. It equals the
  page's chain for every positive target (`Counter.RunAsWrittenFollowsSteps`,
  `Counter.RunAsWrittenReachesTarget`). Below an explicit `data-target` of 0
  or less the page never stops (`Counter.AsWrittenStalls`), and `Animate`
  shows the corrected behaviour instead.
- Counter.SelectTarget: the text read is the element's text as a string.
  The layout-dependent differences between `innerText` and the source text
  are not modelled.

## Findings

| source | as written | input that shows it | evidently intended | confidence | as-written member | corrected member |
|---|---|---|---|---|---|---|
| main.js:61-66 | The increment is `Math.ceil(target / 200)`, which is 0 or negative for a target of 0 or less. Below such a target the value never rises, and a tick is rescheduled every 20 ms for ever. | `data-target="-10"` with text "-20": the increment is 0, and every tick writes -20 and schedules another. | An increment of at least 1, so the chain always reaches the target and stops. | low: not executed. Negative targets may never occur on the site. | Counter.AsWrittenStallExample | Counter.Update |
