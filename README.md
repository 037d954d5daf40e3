# Family calendar card: a verified model of its core

The family calendar card is a Home Assistant dashboard card written in
TypeScript. It shows one column per day in a Swiper carousel, with the
events of the configured `calendar.*` entities placed by time of day and a
fixed weekday meal plan. Beside the card, the frontend ships three modules
the card itself does not import: a windowed horizontal scroller, a client
for the MealViewer school-lunch service, and an hourly menu cache. This
project models the parts of all four that compute, not the parts that
draw. It proves what those parts guarantee.

- **VirtualScrolling** (`virtual_scroller.dfy`) models the windowed
  scroller that mounts day columns only near the viewport.
  - It is a class whose body and header containers are sequences of tagged
    elements. `visibleItems` is a duplicate-free sequence (a JavaScript
    `Set` keeps insertion order).
  - A ghost log records every `addItem`/`removeItem` call. This lets the
    model state which columns an update adds and removes.
  - Every loop of the source is a loop here. Each is proved against
    specification functions: `Window`, `RemoveCalls`, `AddCalls`, `Diff`
    and `Apply`.
- **MealViewer** (`meal_viewer.dfy`) models the pure transform of a menu
  response into daily entrée lists. It also covers the `M-D-YYYY` range
  strings of the request.
- **MenuCache** (`menu_cache.dfy`) models the singleton menu cache as a
  class.
  - Each refresh receives the fetch outcome and the clock reading as
    parameters.
  - A tick of the hourly interval is an explicit call.
- **CalendarCard** (`calendar_card.dfy`) covers the card's own helpers:
  - configuration validation;
  - 12-hour time text and its inverse;
  - the event box arithmetic;
  - hour ranges and pixel offsets;
  - the time-column labels;
  - the weekday meal rule;
  - per-day event filtering;
  - calendar and event colours.

  A JavaScript `Date` becomes its year, month, day, weekday, hour and
  minute.
- **Text**, **Ranges** and **Wrappers** are shared pieces:
  - decimal rendering, a strict reader that accepts only what that
    rendering produces and a plain digit-string reader, `padStart`, and
    splitting at the first occurrence of a character;
  - the inclusive integer range;
  - `Option`, `Result` and `Outcome`.

## Model

| member | source | states |
|---|---|---|
| Ranges.Range | homeassistant/components/family_calendar_card/frontend/src/virtualScroller.ts:69-72 | the inclusive run `lo..hi`: length `hi-lo+1` (0 when `lo > hi`), element `k` is `lo+k` |
| Ranges.RangeMembers | homeassistant/components/family_calendar_card/frontend/src/virtualScroller.ts:69-72 | `x` is in the run iff `lo <= x <= hi`, and the run has no duplicates |
| VirtualScrolling.Placed | homeassistant/components/family_calendar_card/frontend/src/virtualScroller.ts:97-100 | the element made for index `i` at width `w` carries tag `i`, width `w`, and sits at `left = index*width` |
| VirtualScrolling.CeilDiv | homeassistant/components/family_calendar_card/frontend/src/virtualScroller.ts:34 | `Math.ceil(a / b)` for naturals: the least `q` with `a <= q*b`, i.e. `a <= q*b < a+b` |
| VirtualScrolling.StartIndex | homeassistant/components/family_calendar_card/frontend/src/virtualScroller.ts:60-63 | the first index is exactly `max(0, floor(scrollLeft/itemWidth) - overscan)`: it is at least both bounds and equal to one of them |
| VirtualScrolling.EndIndex | homeassistant/components/family_calendar_card/frontend/src/virtualScroller.ts:64-67 | the last index is exactly `min(1000, ceil((scrollLeft+clientWidth)/itemWidth) + overscan)`: it is at most both bounds and equal to one of them |
| VirtualScrolling.Window | homeassistant/components/family_calendar_card/frontend/src/virtualScroller.ts:60-72 | `newVisibleItems`: holds exactly the integers from the first to the last index, each once, in ascending order |
| VirtualScrolling.WindowGeometry | homeassistant/components/family_calendar_card/frontend/src/virtualScroller.ts:60-72 | index `i` is in the window iff `0 <= i <= 1000`, `scrollLeft < (i+overscan+1)*itemWidth` and `(i-overscan-1)*itemWidth < scrollLeft+clientWidth`: column `i` widened by `overscan` columns on its right and `overscan+1` on its left overlaps the viewport |
| VirtualScrolling.WindowExample | homeassistant/components/family_calendar_card/frontend/src/virtualScroller.ts:60-72 | scroll 650, viewport 900, width 300, overscan 1 mounts exactly indices 1..7 |
| VirtualScrolling.Without | homeassistant/components/family_calendar_card/frontend/src/virtualScroller.ts:138-147 | removing tag `i` shortens the container by exactly the number of elements tagged `i` |
| VirtualScrolling.CountWithout | homeassistant/components/family_calendar_card/frontend/src/virtualScroller.ts:138-147 | after removing tag `i`, no element tagged `i` is left and every other tag keeps its count |
| VirtualScrolling.WithoutSubset | homeassistant/components/family_calendar_card/frontend/src/virtualScroller.ts:138-147 | removal only deletes: every remaining element was there before and is not tagged `i` |
| VirtualScrolling.CountSameTags | homeassistant/components/family_calendar_card/frontend/src/virtualScroller.ts:153-175 | restyling elements in place, keeping their tags, keeps every tag count |
| VirtualScrolling.ApplyConcat | homeassistant/components/family_calendar_card/frontend/src/virtualScroller.ts:74-86 | running two batches of add/remove calls one after the other equals running their concatenation |
| VirtualScrolling.ApplyKeepsPlaced | homeassistant/components/family_calendar_card/frontend/src/virtualScroller.ts:91-147 | if every element sits at `left = index*w`, `width = w`, it still does after any add/remove calls at width `w` |
| VirtualScrolling.RemoveCallsCount | homeassistant/components/family_calendar_card/frontend/src/virtualScroller.ts:74-79 | the removal loop empties exactly the tags in old∖new and leaves every other count unchanged |
| VirtualScrolling.AddCallsCount | homeassistant/components/family_calendar_card/frontend/src/virtualScroller.ts:81-86 | the add loop over a duplicate-free set adds exactly one element per index in new∖old, nothing else |
| VirtualScrolling.DiffRemounts | homeassistant/components/family_calendar_card/frontend/src/virtualScroller.ts:69-88 | a container holding each old visible index once holds each new visible index once after the update's calls |
| VirtualScrolling.RemoveCallsExact | homeassistant/components/family_calendar_card/frontend/src/virtualScroller.ts:74-79 | the first loop only calls `removeItem`, and calls it for `i` iff `i` was visible and is no longer |
| VirtualScrolling.AddCallsExact | homeassistant/components/family_calendar_card/frontend/src/virtualScroller.ts:81-86 | the second loop only calls `addItem`, and calls it for `i` iff `i` is newly visible; nothing already visible is re-added |
| VirtualScrolling.DiffCalls | homeassistant/components/family_calendar_card/frontend/src/virtualScroller.ts:74-86 | in one update, `removeItem(i)` happens iff `i` ∈ old∖new and `addItem(i)` iff `i` ∈ new∖old |
| VirtualScrolling.RemoveCallsNone | homeassistant/components/family_calendar_card/frontend/src/virtualScroller.ts:74-79 | when every old index stays visible, the removal loop calls nothing |
| VirtualScrolling.AddCallsNone | homeassistant/components/family_calendar_card/frontend/src/virtualScroller.ts:81-86 | when every new index was already visible, the add loop calls nothing |
| VirtualScrolling.DiffOfSame | homeassistant/components/family_calendar_card/frontend/src/virtualScroller.ts:56-89 | idempotence: an update whose window equals the visible set makes no call and leaves the containers as they are |
| VirtualScrolling.InsertMembers | homeassistant/components/family_calendar_card/frontend/src/virtualScroller.ts:39 | adding indices to a duplicate-free set keeps it duplicate-free and yields exactly the union |
| VirtualScrolling.InsertAllNew | homeassistant/components/family_calendar_card/frontend/src/virtualScroller.ts:37-40 | adding a duplicate-free run to the empty set gives that run, in order |
| VirtualScrolling.MountCounts | homeassistant/components/family_calendar_card/frontend/src/virtualScroller.ts:37-40 | the initial loop adds exactly one element for each index `0..n` and nothing else |
| VirtualScrolling.MountedAfter | homeassistant/components/family_calendar_card/frontend/src/virtualScroller.ts:33-40 | the initial mount keeps positions right, and from an empty start leaves each index `0..n` mounted exactly once |
| VirtualScrolling.UpdateOutcome | homeassistant/components/family_calendar_card/frontend/src/virtualScroller.ts:69-88 | an update takes "each old visible index mounted once" to "each new visible index mounted once" and keeps positions right |
| VirtualScrolling.RemoveTagged | homeassistant/components/family_calendar_card/frontend/src/virtualScroller.ts:141-146 | the `querySelectorAll(...).forEach(remove)` loop leaves the container without the elements tagged `i` |
| VirtualScrolling.Restyle | homeassistant/components/family_calendar_card/frontend/src/virtualScroller.ts:153-175 | the restyling loop keeps length and tags and sets each element to `left = index*w`, `width = w` |
| VirtualScrolling.IndexRange | homeassistant/components/family_calendar_card/frontend/src/virtualScroller.ts:69-72 | the loop building `newVisibleItems` produces the run `startIndex..endIndex` |
| VirtualScrolling.VirtualScroller.constructor | homeassistant/components/family_calendar_card/frontend/src/virtualScroller.ts:15-21 | a new scroller has no visible index and empty containers |
| VirtualScrolling.VirtualScroller.AddItem | homeassistant/components/family_calendar_card/frontend/src/virtualScroller.ts:91-136 | appends one element tagged `i` at `left = i*itemWidth`, `width = itemWidth` to both containers, and nothing else changes |
| VirtualScrolling.VirtualScroller.RemoveItem | homeassistant/components/family_calendar_card/frontend/src/virtualScroller.ts:138-147 | deletes every element tagged `i` from both containers and leaves all others in order |
| VirtualScrolling.VirtualScroller.InitialMount | homeassistant/components/family_calendar_card/frontend/src/virtualScroller.ts:28-41 | mounts indices `0..ceil(clientWidth/itemWidth)+2` with no membership check (each tag count goes up by one); from an empty scroller the result is valid with exactly that run visible |
| VirtualScrolling.VirtualScroller.MountUpTo | homeassistant/components/family_calendar_card/frontend/src/virtualScroller.ts:37-40 | the initial loop issues `addItem(0..n)` in order and adds `0..n` to the visible set |
| VirtualScrolling.VirtualScroller.MountIndex | homeassistant/components/family_calendar_card/frontend/src/virtualScroller.ts:38-39 | one turn of the initial loop: one element appended, the index added to the set if absent |
| VirtualScrolling.VirtualScroller.Update | homeassistant/components/family_calendar_card/frontend/src/virtualScroller.ts:56-89 | afterwards the visible set is exactly the window, without duplicates; the calls made are the removals of old∖new and then the additions of new∖old; from any state with equal containers, each tag's count becomes 0 if the tag left the window, else its old count plus 1 if it entered; a state where each visible index was mounted once stays so, and positions stay right |
| VirtualScrolling.VirtualScroller.RemoveStale | homeassistant/components/family_calendar_card/frontend/src/virtualScroller.ts:74-79 | the removal loop's calls and resulting containers are `RemoveCalls(visible, new)` applied |
| VirtualScrolling.VirtualScroller.AddMissing | homeassistant/components/family_calendar_card/frontend/src/virtualScroller.ts:81-86 | the add loop's calls and resulting containers are `AddCalls(new, visible)` applied |
| VirtualScrolling.VirtualScroller.HandleScroll | homeassistant/components/family_calendar_card/frontend/src/virtualScroller.ts:44-54 | reports the raw scroll position, then performs an update with its guarantees: window, tag counts, and validity kept when it held |
| VirtualScrolling.VirtualScroller.UpdateItemWidth | homeassistant/components/family_calendar_card/frontend/src/virtualScroller.ts:149-176 | the width becomes `w`; the window is recomputed at `w` with the same tag-count rule as `Update`; then every element of both containers sits at `index*w` with width `w`; a state where each visible index was mounted once ends valid |
| VirtualScrolling.DiffCounts | homeassistant/components/family_calendar_card/frontend/src/virtualScroller.ts:74-86 | removing old∖new and then adding new∖old leaves a tag's count at 0 if it left, else adds 1 exactly when it entered, whatever duplicates the container already had |
| VirtualScrolling.VirtualScroller.GetItemWidth | homeassistant/components/family_calendar_card/frontend/src/virtualScroller.ts:178-180 | returns the current item width, which is the last width set |
| Text.NatToString | homeassistant/components/family_calendar_card/frontend/src/mealViewerService.ts:37-39 | a number in a template literal: at least one decimal digit, no leading zero, one digit iff below 10 |
| Text.DigitsValueOfNatToString | homeassistant/components/family_calendar_card/frontend/src/mealViewerService.ts:37-39 | the digits written for `n` have value `n` |
| Text.NatToStringRoundTrip | homeassistant/components/family_calendar_card/frontend/src/mealViewerService.ts:37-39 | parsing the decimal text of `n` gives `n` back |
| Text.NatToStringInjective | homeassistant/components/family_calendar_card/frontend/src/mealViewerService.ts:37-39 | different numbers are written differently |
| Text.ParseDigits | homeassistant/components/family_calendar_card/frontend/src/family-calendar-card.ts:408 | accepts exactly the non-empty all-digit strings (two-digit minutes such as `05`) |
| Text.ParseNat | homeassistant/components/family_calendar_card/frontend/src/mealViewerService.ts:37-39 | a number is read only from the text a template literal writes for it: anything accepted is that rendering, and a leading zero is refused |
| Text.ParseNatOfCanonical | homeassistant/components/family_calendar_card/frontend/src/mealViewerService.ts:37-39 | digit text without a leading zero reads as its value |
| Text.CanonicalIsNatToString | homeassistant/components/family_calendar_card/frontend/src/mealViewerService.ts:37-39 | digit text without a leading zero is exactly how its value is written |
| Text.ParseNatExact | homeassistant/components/family_calendar_card/frontend/src/mealViewerService.ts:37-39 | the strict reader gives `n` iff the text is the rendering of `n` |
| Text.PadStart | homeassistant/components/family_calendar_card/frontend/src/family-calendar-card.ts:408 | `padStart(n, c)`: length is `max(|s|, n)`, `s` is a suffix, and everything before it is `c` |
| Text.Before | homeassistant/components/family_calendar_card/frontend/src/mealViewerService.ts:69 | `split(c)[0]`: the longest prefix without `c`, ending at the first `c` or at the end |
| Text.SplitAtFirst | homeassistant/components/family_calendar_card/frontend/src/mealViewerService.ts:69 | splitting `a + c + b` at its first `c` gives `a` and `b` back when `a` has no `c` |
| MealViewer.UpperAscii | homeassistant/components/family_calendar_card/frontend/src/mealViewerService.ts:63 | `toUpperCase` on a character: a–z move to A–Z, everything else is unchanged |
| MealViewer.ToUpper | homeassistant/components/family_calendar_card/frontend/src/mealViewerService.ts:63 | upper-casing keeps the length |
| MealViewer.IsEntree | homeassistant/components/family_calendar_card/frontend/src/mealViewerService.ts:63 | an item counts as an entrée only if its type has the seven letters of `ENTREES` |
| MealViewer.EntreeSpellings | homeassistant/components/family_calendar_card/frontend/src/mealViewerService.ts:63 | "Entrees", "entrees" and "ENTREES" count as entrées; "Vegetables" and "Entree" do not |
| MealViewer.EntreeIgnoresCase | homeassistant/components/family_calendar_card/frontend/src/mealViewerService.ts:63 | an item is an entrée iff its type has seven characters, each the letter of `ENTREES` in upper or lower case |
| MealViewer.Entrees | homeassistant/components/family_calendar_card/frontend/src/mealViewerService.ts:62-64 | the entrée names of a line are never more than its food items |
| MealViewer.LineEntrees | homeassistant/components/family_calendar_card/frontend/src/mealViewerService.ts:61-65 | the inner `flatMap` lists no more names than the lines hold food items |
| MealViewer.BlockEntrees | homeassistant/components/family_calendar_card/frontend/src/mealViewerService.ts:60-66 | the outer `flatMap` lists no more names than the schedule holds food items |
| MealViewer.EntreesAppend | homeassistant/components/family_calendar_card/frontend/src/mealViewerService.ts:62-64 | filtering works item by item: the entrées of `a + b` are those of `a` followed by those of `b` |
| MealViewer.LineEntreesFlatten | homeassistant/components/family_calendar_card/frontend/src/mealViewerService.ts:61-65 | the inner `flatMap` over lines equals filtering the lines' items laid end to end |
| MealViewer.BlockEntreesFlatten | homeassistant/components/family_calendar_card/frontend/src/mealViewerService.ts:60-66 | a schedule's items are the entrées of all its food items in block, then line, then item order |
| MealViewer.EntreesMembers | homeassistant/components/family_calendar_card/frontend/src/mealViewerService.ts:63-64 | a name is listed iff some item has that name and a type that upper-cases to `ENTREES` |
| MealViewer.DatePart | homeassistant/components/family_calendar_card/frontend/src/mealViewerService.ts:69 | the date is the prefix of `dateFull` before its first `T`, or all of it if there is none |
| MealViewer.DatePartOfTimestamp | homeassistant/components/family_calendar_card/frontend/src/mealViewerService.ts:69 | `date + "T" + time` yields `date`, and a string without `T` yields itself |
| MealViewer.DailyMenuContents | homeassistant/components/family_calendar_card/frontend/src/mealViewerService.ts:59-71 | a schedule's entry carries its truncated date and exactly its entrée names, in nesting order, no more of them than its food items |
| MealViewer.ProcessSchedule | homeassistant/components/family_calendar_card/frontend/src/mealViewerService.ts:67-70 | a schedule's entry has as its date a prefix of `dateFull` with no `T`, and no more names than the schedule's food items |
| MealViewer.ProcessResponse | homeassistant/components/family_calendar_card/frontend/src/mealViewerService.ts:54-72 | an error iff the body or its `menuSchedules` is missing, with the source's message; otherwise one entry per schedule, in order |
| MealViewer.EmptySchedules | homeassistant/components/family_calendar_card/frontend/src/mealViewerService.ts:54-59 | an empty schedule list gives an empty result, while a missing one is an error |
| MealViewer.FetchMenuData | homeassistant/components/family_calendar_card/frontend/src/mealViewerService.ts:47-86 | a request error is re-raised unchanged, and a reply goes through the transform |
| MealViewer.RangeDateString | homeassistant/components/family_calendar_card/frontend/src/mealViewerService.ts:37-42 | the range string is at least five characters long and starts with a non-zero digit (the month counts from 1) |
| MealViewer.ParseRangeParts | homeassistant/components/family_calendar_card/frontend/src/mealViewerService.ts:37-42 | three unpadded decimal strings joined by dashes read back as their three values |
| MealViewer.RangeDateRoundTrip | homeassistant/components/family_calendar_card/frontend/src/mealViewerService.ts:37-42 | the string reads back as `(month+1, day, year)` under a reader that refuses leading zeros, so nothing is lost and nothing is padded |
| MealViewer.RangeDateCanonical | homeassistant/components/family_calendar_card/frontend/src/mealViewerService.ts:37-42 | any text that reads back as `(month+1, day, year)` is exactly the range string of that date: no zero padding, no other separator |
| MealViewer.RangeDateInjective | homeassistant/components/family_calendar_card/frontend/src/mealViewerService.ts:37-42 | different dates give different range strings |
| MealViewer.RangeDateExample | homeassistant/components/family_calendar_card/frontend/src/mealViewerService.ts:37-42 | 5 March 2024 is written `3-5-2024` |
| MenuCache.MenuCacheService.constructor | homeassistant/components/family_calendar_card/frontend/src/menuCacheService.ts:10-19 | a new service has no data, no timestamp, no interval, and is not initialized |
| MenuCache.MenuCacheService.RefreshCache | homeassistant/components/family_calendar_card/frontend/src/menuCacheService.ts:41-54 | success replaces data and timestamp together; failure changes nothing and re-raises the error; the flag and interval are untouched |
| MenuCache.MenuCacheService.InitializeCache | homeassistant/components/family_calendar_card/frontend/src/menuCacheService.ts:28-39 | no-op once initialized; otherwise the interval (3,600,000 ms) and the flag are set only after a successful refresh, and a failed one leaves both unset and re-raises |
| MenuCache.MenuCacheService.Tick | homeassistant/components/family_calendar_card/frontend/src/menuCacheService.ts:34-37 | a tick refreshes: new data on success, old data kept on failure, still initialized |
| MenuCache.MenuCacheService.GetCachedMenu | homeassistant/components/family_calendar_card/frontend/src/menuCacheService.ts:56-58 | returns the cached data, which is `null` iff no refresh has succeeded |
| MenuCache.MenuCacheService.GetLastUpdated | homeassistant/components/family_calendar_card/frontend/src/menuCacheService.ts:60-62 | returns the timestamp, which is `null` iff no refresh has succeeded |
| MenuCache.MenuCacheService.IsInitialized | homeassistant/components/family_calendar_card/frontend/src/menuCacheService.ts:64-66 | returns the flag; when it is true a refresh has succeeded and the hourly interval is armed |
| MenuCache.ServiceRegistry.GetInstance | homeassistant/components/family_calendar_card/frontend/src/menuCacheService.ts:21-26 | creates a fresh, empty service on first use and returns the stored one afterwards |
| MenuCache.ServiceRegistry.GetInstanceTwice | homeassistant/components/family_calendar_card/frontend/src/menuCacheService.ts:21-26 | two calls return the same service |
| MenuCache.InitializeRetry | homeassistant/components/family_calendar_card/frontend/src/menuCacheService.ts:28-39 | a failed first initialization, a successful retry, then a no-op: the retry's data and time are kept and the interval is hourly |
| CalendarCard.FirstNonCalendar | homeassistant/components/family_calendar_card/frontend/src/family-calendar-card.ts:260-264 | finds the first entity not starting with `calendar.`, all before it doing so; none is found iff all do |
| CalendarCard.ConfigCheck | homeassistant/components/family_calendar_card/frontend/src/family-calendar-card.ts:251-266 | an accepted config has a non-empty entity list; a rejected non-empty list is rejected with an error naming one of its entities that does not start with `calendar.` |
| CalendarCard.ConfigCheckMeaning | homeassistant/components/family_calendar_card/frontend/src/family-calendar-card.ts:252-264 | a config is accepted iff its entities form a non-empty list of `calendar.` ids; a missing, non-array or empty list gets the "at least one" error; otherwise the error names the first bad entity |
| CalendarCard.FamilyCalendarCard.constructor | homeassistant/components/family_calendar_card/frontend/src/family-calendar-card.ts:98 | a new card has no configuration |
| CalendarCard.FamilyCalendarCard.SetConfig | homeassistant/components/family_calendar_card/frontend/src/family-calendar-card.ts:251-266 | the entity loop throws exactly what the validation prescribes; on acceptance the config is stored unchanged, on rejection the old one stays |
| CalendarCard.Hour12 | homeassistant/components/family_calendar_card/frontend/src/family-calendar-card.ts:407 | the shown hour lies in 1..12 and agrees with the hour modulo 12 |
| CalendarCard.Hour12Back | homeassistant/components/family_calendar_card/frontend/src/family-calendar-card.ts:407-409 | the 12-hour reading plus 12 for the afternoon gives back the 24-hour hour |
| CalendarCard.Meridiem | homeassistant/components/family_calendar_card/frontend/src/family-calendar-card.ts:409 | the suffix is `pm` iff the hour is at least 12, `am` otherwise |
| CalendarCard.Pad2 | homeassistant/components/family_calendar_card/frontend/src/family-calendar-card.ts:408 | the minutes are always two decimal digits |
| CalendarCard.Pad2Value | homeassistant/components/family_calendar_card/frontend/src/family-calendar-card.ts:408 | the two digits are the minute's value (zero-padded below 10) |
| CalendarCard.LeadingZero | homeassistant/components/family_calendar_card/frontend/src/family-calendar-card.ts:408 | the padding zero adds nothing to the value |
| CalendarCard.FormatTime | homeassistant/components/family_calendar_card/frontend/src/family-calendar-card.ts:406-411 | the text is 7 or 8 characters long and ends in `am` for hours before 12, `pm` from 12 on |
| CalendarCard.ParseTime | homeassistant/components/family_calendar_card/frontend/src/family-calendar-card.ts:406-411 | the reader of `h:mm am` text accepts only text containing a `:`; an hour 1..12 without leading zero, two minute digits below 60 and `am`/`pm` |
| CalendarCard.ParseClockParts | homeassistant/components/family_calendar_card/frontend/src/family-calendar-card.ts:408-410 | the `mm am` part reads back its minute digits and half of the day, after an unpadded hour 1..12 |
| CalendarCard.ParseTimeParts | homeassistant/components/family_calendar_card/frontend/src/family-calendar-card.ts:406-411 | any `h:mm am/pm` text with an unpadded hour 1..12 and minute below 60 reads back as its hour (mod 12, plus 12 for pm) and minute |
| CalendarCard.FormatTimeRoundTrip | homeassistant/components/family_calendar_card/frontend/src/family-calendar-card.ts:406-411 | `_formatTime` loses nothing: its text reads back as the same hour and minute |
| CalendarCard.ParseTimeOnlyFormatTime | homeassistant/components/family_calendar_card/frontend/src/family-calendar-card.ts:406-411 | every text the reader accepts is exactly `_formatTime` of what it reads: hour unpadded 1..12, minutes padded to two digits, single space, `am`/`pm` |
| CalendarCard.ParseClockOnly | homeassistant/components/family_calendar_card/frontend/src/family-calendar-card.ts:406-411 | an accepted hour and clock part are exactly the 12-hour rendering, the padded minutes, a space and the half of the day |
| CalendarCard.TwoDigitsArePad2 | homeassistant/components/family_calendar_card/frontend/src/family-calendar-card.ts:408 | two digits below 60 are exactly `padStart(2, '0')` of their value |
| CalendarCard.FormatTimeInjective | homeassistant/components/family_calendar_card/frontend/src/family-calendar-card.ts:406-411 | different times of day give different texts |
| CalendarCard.FormatTimeMidnight | homeassistant/components/family_calendar_card/frontend/src/family-calendar-card.ts:406-411 | 00:05 is shown as `12:05 am` |
| CalendarCard.FormatTimeNoon | homeassistant/components/family_calendar_card/frontend/src/family-calendar-card.ts:406-411 | 12:00 is shown as `12:00 pm` |
| CalendarCard.FormatTimeAfternoon | homeassistant/components/family_calendar_card/frontend/src/family-calendar-card.ts:406-411 | 13:30 is shown as `1:30 pm` |
| CalendarCard.TimeSlotLabels | homeassistant/components/family_calendar_card/frontend/src/family-calendar-card.ts:496-500 | the time column has 24 labels |
| CalendarCard.TimeSlotLabelParts | homeassistant/components/family_calendar_card/frontend/src/family-calendar-card.ts:496-500 | label `i` starts with the unpadded hour `i % 12` (12 for 0), then `am` iff `i < 12`, else `pm` |
| CalendarCard.TimeSlotLabelsDistinct | homeassistant/components/family_calendar_card/frontend/src/family-calendar-card.ts:496-500 | no two of the 24 labels are equal |
| CalendarCard.HourLabels | homeassistant/components/family_calendar_card/frontend/src/family-calendar-card.ts:105-108 | `_timeSlots` has 24 entries |
| CalendarCard.HourLabelsMatchFormatTime | homeassistant/components/family_calendar_card/frontend/src/family-calendar-card.ts:105-108 | `_timeSlots[i]` is `_formatTime` of minute 0 of hour `i`, less the suffix |
| CalendarCard.HourLabelsRepeat | homeassistant/components/family_calendar_card/frontend/src/family-calendar-card.ts:105-108 | `_timeSlots` repeats after twelve hours because it has no suffix |
| CalendarCard.MinutesOfDay | homeassistant/components/family_calendar_card/frontend/src/family-calendar-card.ts:386-387 | minutes since midnight lie in `[0, 1440)` |
| CalendarCard.MinutesOfDayOrder | homeassistant/components/family_calendar_card/frontend/src/family-calendar-card.ts:386-387 | minutes since midnight order and identify times exactly as (hour, minute) does |
| CalendarCard.EventBox | homeassistant/components/family_calendar_card/frontend/src/family-calendar-card.ts:386-394 | `top` is the start minute; `height` is at least 60, at least the duration, and is one of the two |
| CalendarCard.EventBoxCoversEvent | homeassistant/components/family_calendar_card/frontend/src/family-calendar-card.ts:386-394 | the box reaches the event's end and at least an hour past its start; it ends exactly at the end when the event lasts an hour or more |
| CalendarCard.EventBackground | homeassistant/components/family_calendar_card/frontend/src/family-calendar-card.ts:396-401 | the background is never empty; it is that colour id's palette entry whenever a palette and a non-empty id are present and the entry is non-empty, and the default `#039be5` in every other case |
| CalendarCard.GetHourRange | homeassistant/components/family_calendar_card/frontend/src/family-calendar-card.ts:67-73 | returns `[a, a+1, ..., b]`, of length `b-a+1` when `a <= b` and empty otherwise |
| CalendarCard.ConvertTimeToPixels | homeassistant/components/family_calendar_card/frontend/src/family-calendar-card.ts:83-87 | the offset is minutes since midnight less `60 * startHour` |
| CalendarCard.PixelsFollowClock | homeassistant/components/family_calendar_card/frontend/src/family-calendar-card.ts:67-87 | pixel offsets keep clock order, and the `k`-th hour of a range lies at `60k` pixels |
| CalendarCard.MealPlan | homeassistant/components/family_calendar_card/frontend/src/family-calendar-card.ts:469-489 | tacos iff weekday 2, pizza iff weekday 5, nothing iff neither |
| CalendarCard.MealPlanWeekly | homeassistant/components/family_calendar_card/frontend/src/family-calendar-card.ts:470 | the plan depends on the weekday only |
| CalendarCard.SameDate | homeassistant/components/family_calendar_card/frontend/src/family-calendar-card.ts:420-425 | definition of the filter's test: same day of the month, month and full year, the time of day and weekday ignored (no `ensures`; its properties are in the `DayFilter` lemmas) |
| CalendarCard.DayFilter | homeassistant/components/family_calendar_card/frontend/src/family-calendar-card.ts:418-426 | the filter never lengthens the list |
| CalendarCard.EventsForDay | homeassistant/components/family_calendar_card/frontend/src/family-calendar-card.ts:413-426 | there are no events for any day while none are loaded |
| CalendarCard.DayFilterMembers | homeassistant/components/family_calendar_card/frontend/src/family-calendar-card.ts:418-426 | an event is kept iff it starts on the same day of month, month and year |
| CalendarCard.DayFilterAppend | homeassistant/components/family_calendar_card/frontend/src/family-calendar-card.ts:418-426 | the filter keeps order: filtering `a + b` gives the filtered `a` followed by the filtered `b` |
| CalendarCard.DayFilterIdempotent | homeassistant/components/family_calendar_card/frontend/src/family-calendar-card.ts:418-426 | filtering a day's events again for that day changes nothing |
| CalendarCard.DaysAreDisjoint | homeassistant/components/family_calendar_card/frontend/src/family-calendar-card.ts:413-426 | no event is listed under two different dates |
| CalendarCard.FallbackColor | homeassistant/components/family_calendar_card/frontend/src/family-calendar-card.ts:374-382 | the built-in colour is one of the four table colours, and any id outside the `calendar.` domain gets the default `#039be5` |
| CalendarCard.CalendarColor | homeassistant/components/family_calendar_card/frontend/src/family-calendar-card.ts:366-383 | the colour is never empty; it is the entity's own non-empty colour when present, and otherwise exactly the built-in colour for the id |
| CalendarCard.KnownCalendarColors | homeassistant/components/family_calendar_card/frontend/src/family-calendar-card.ts:374-382 | without a colour of their own, `calendar.personal`, `calendar.work`, `calendar.family` and `calendar.holidays` get `#039be5`, `#7986cb`, `#33b679` and `#8e24aa` |
| CalendarCard.UnknownCalendarColor | homeassistant/components/family_calendar_card/frontend/src/family-calendar-card.ts:373-382 | an unknown calendar with no colour of its own gets the default `#039be5` |

## Notes on the code's behaviour

- The window is not symmetric. For scroll 650, viewport 900, item width
  300 and overscan 1, the last index is `ceil(1550 / 300) + 1 = 7`, so the
  scroller mounts `1..7` (`VirtualScrolling.WindowExample`).
- Stated in pixels, the window is every column that overlaps the viewport
  once widened by `overscan` widths on its right and `overscan + 1` widths
  on its left, with strict bounds (`VirtualScrolling.WindowGeometry`).
- `getCachedMenu()` takes no date. It returns the whole cached list.

## Left out

- DOM work, lit templates, Swiper and CSS text. The scroller's elements
  keep only their tag, `left` and `width`. `renderItem` and
  `renderHeader` contents are not modelled.
- `ResizeObserver`, `requestAnimationFrame` coalescing, the scroll
  listener and `destroy`. Each frame that runs `update` is an explicit
  `Update` or `HandleScroll` call. Scroll position and viewport width are
  parameters, not container reads.
- VirtualScrolling.VirtualScroller.InitialMount: requires
  `header == body`, which holds in every reachable state. Its validity
  claim needs an empty visible set beforehand: the source's loop has no
  membership check, so a non-empty set gets duplicate mounts. That
  happens when `updateItemWidth` runs before the constructor's first
  animation frame. `Update`, `HandleScroll` and `UpdateItemWidth` accept
  such a state and state the resulting tag counts, so the doubled columns
  stay doubled and a column that leaves the window loses every copy.
- VirtualScrolling.VirtualScroller.Update: requires `itemWidth > 0`, as do
  `InitialMount`, `HandleScroll`, `UpdateItemWidth` and the index
  functions. The source divides by the width without a guard, and width 0
  is not modelled:
  - with `clientWidth > 0`, `Math.ceil(clientWidth / 0) + 2` is
    `Infinity`, so the initial mount loop (virtualScroller.ts:37) never
    ends;
  - in `update()` the bounds become `NaN` or `Infinity`, the window is
    empty, and every mounted column is removed.
- JavaScript numbers are naturals here. A fractional `scrollLeft`,
  `clientWidth` or item width (for example from a zoomed page) is not
  modelled: `Math.floor`/`Math.ceil` act on exact quotients of naturals.
- `setInterval` scheduling. The armed interval is recorded by its period,
  and each firing is an explicit `Tick`. Concurrent `initializeCache`
  calls interleaving at the `await` are not modelled: each call runs to
  completion.
- The HTTP request of `fetchMenuData`: the URL, the headers, `axios`,
  console logging, and the clock reading behind `new Date()`. The parsed
  response body, or the request's error, is a parameter of
  `MealViewer.FetchMenuData`.
- `_fetchCalendarEvents`: network calls to Home Assistant and `_error`
  handling. The loaded events are a parameter of
  `CalendarCard.EventsForDay`.
- An Invalid Date cannot be represented: every modelled `DateTime` has
  real fields. When an event has neither `dateTime` nor `date`, the source
  builds `new Date("")` (family-calendar-card.ts:313-314). Its `getDate()`
  is `NaN`, so the day filter (family-calendar-card.ts:420-425) never
  lists it, and `_formatTime` of it would give `12:NaN am`.
- CalendarCard.EventBackground: the palette is a parameter, but the card
  never fills `_colors`, because its `_fetchColors` call is commented out
  (family-calendar-card.ts:272). So in the card as shipped the palette
  branch is dead and every event gets `#039be5`; the model states the
  helper's behaviour for any palette.
- The `map` part of `_getEventsForDay`: float pixel scaling by 100/60 and
  HTML. Only the filter is modelled.
- `_getDays`, the `Date` arithmetic (`setDate(+30)`), time zones and
  locale text (`getTimeString`, `toLocaleDateString`). A date is its
  already-computed fields.
- CalendarCard.ConfigCheck: an `entities` entry that is not a string
  (a nested `- entity: calendar.x` mapping, or null) is not modelled: the
  list holds strings only. In the source `entity.startsWith` then throws a
  `TypeError` (family-calendar-card.ts:261) instead of the card's own
  message. `CalendarCard.FamilyCalendarCard.SetConfig` inherits this gap.
- MealViewer.UpperAscii: upper-cases ASCII letters only. JavaScript's full
  Unicode `toUpperCase` is not modelled.
- CalendarCard.CalendarColor: a calendar id that names a property
  inherited by every JavaScript object (such as `constructor`) would make
  `colors[calendarId]` a function. The model treats every id other than
  the four listed as unknown.
- `DateUtils.convertTimeToPixels`, `_getEventStyle`,
  `DateUtils.getHourRange`, `_timeSlots` and `_getCalendarColor` are never
  called by the card. They are modelled as the helpers they are. The
  event boxes actually drawn use the unclamped float formula of
  `_getEventsForDay`.
- editor.ts, styles.ts, types.ts, get_stylesheet.ts and the build scripts
  are not part of this model.
