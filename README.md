# Para-no-olvidar calendar core in Dafny

This project models the logic of a single-page reminder calendar with the
presentation stripped away. A user marks calendar dates with an icon and
browses a month grid. Three parts are modelled:

- **Civil-date helpers** (`utils/date.ts`). `formatDateISO` renders a date as
  its `YYYY-MM-DD` key. `getDaysInMonth` lists the days of a month.
  `getFirstDayOfMonth` gives the weekday of day 1, with 0 = Sunday. These are
  modules `Civil` and `IsoDate`. `Text` holds the string order and the
  zero-padded numerals they rest on.
- **Month grid** (`calendarGrid` in `components/Calendar.tsx`). The builder
  fills 42 cells in three counted loops, which is the method
  `CalendarGrid.BuildGrid`. It is proved equal, cell by cell, to the closed
  form `GridCell`. Lemmas about `GridCell` state what the grid means: the
  cells are contiguous across month and year ends, each column sits under its
  weekday, exactly the current-month cells are flagged, and the padding is
  bounded. The module also holds the cell click rule and the cell icon rule.
- **Reminder collection and app state** (`App.tsx`). Module `Reminders` holds
  the list computations as functions: the key index built with `new Map`
  and its lookup `Find`, which stands for `Map.prototype.get`,
  insert-if-absent by append and sort, and remove by filter. Lemmas prove
  that the list stays strictly sorted by key, so no date appears twice.
  Module `AppState` holds class `App`. Its fields are the component's state
  variables and its methods are the event handlers.

Conventions of the model:

- A date is a `(year, month, day)` triple. The month runs 1..12 as in the
  key; JavaScript's `getMonth()` runs 0..11.
- Weekdays come from a day count since 0000-01-01 in the proleptic Gregorian
  calendar. That day was a Saturday.
- Keys follow the complete calendar date in extended format of ISO 8601:2004
  section 4.1.2.2, which is the `full-date` of RFC 3339 section 5.6. Outside
  years 0000..9999 they use the expanded `±YYYYYY` year that `toISOString`
  produces.
- Keys are compared in code-unit order. `localeCompare` orders two keys of
  the same `YYYY-MM-DD` shape the same way.

## Model

| member | source | states |
|---|---|---|
| `Civil.DaysIn` | utils/date.ts:9 | A month has 28 to 31 days; February has 29 exactly in a Gregorian leap year (divisible by 4, and not by 100 unless also by 400). |
| `Civil.DaysOfMonth` | utils/date.ts:6-11 | The list has one entry per day of the month. Every entry is a valid date of the argument's own year and month. Every date of that month is in it. It starts at day 1 and each entry is the day after the previous one. |
| `Civil.FirstDayOfMonth` | utils/date.ts:13-15 | The weekday of day 1 is in 0..6. |
| `Civil.FirstDayIgnoresDay` | utils/date.ts:13-15 | Two dates in the same year and month give the same first weekday, whatever their day. |
| `Civil.NextMonthFirstDay` | utils/date.ts:13-15 | The next month's first weekday is `(first + DaysIn) mod 7`, including from December into January. |
| `Civil.Weekday` | utils/date.ts:14 | The day of the week, as `getDay` numbers it with 0 = Sunday, is in 0..6. `EpochIsThursday` and `NextDayWeekday` pin which day is which. |
| `Civil.NextDayWeekday` | utils/date.ts:14 | The day after a date falls on the next weekday, wrapping Saturday to Sunday. |
| `Civil.EpochIsThursday` | utils/date.ts:14 | The day-count anchor agrees with `getDay`: 1970-01-01 is a Thursday (4). |
| `Civil.NextDay` | components/Calendar.tsx:27-48 | The successor date, which relates the consecutive cells the grid loops push: it is valid, comes later in chronological order, and is exactly one day count later, rolling over month and year ends. |
| `Civil.MonthBefore` | App.tsx:38-40 | Previous month: a valid day 1, one month index earlier, so January steps to December of the prior year. |
| `Civil.MonthAfter` | App.tsx:42-44 | Next month: a valid day 1, one month index later, so December steps to January of the next year. |
| `Civil.MonthStepsInverse` | App.tsx:38-44 | Next(Prev(d)) and Prev(Next(d)) are both day 1 of d's month. |
| `Text.Numeral` | utils/date.ts:3 | A zero-padded field is all digits, reads back as its number, and has exactly the padded width when the number fits. |
| `Text.NumeralOrder` | utils/date.ts:3 | Numerals of one width compare as strings exactly as their numbers compare. |
| `IsoDate.YearText` | utils/date.ts:3 | The year field is four digits reading back as the year for years 0..9999. Outside that range it is a sign, `-` for negative years, followed by at least six digits reading back as the year's magnitude. |
| `IsoDate.Key` | utils/date.ts:2-4 | For years 0..9999 the key is 10 characters: 4 digits, `-`, 2 digits, `-`, 2 digits. |
| `IsoDate.KeyRoundTrip` | utils/date.ts:3 | Parsing a date's key gives back the same year, month and day, for every year. |
| `IsoDate.KeyInjective` | utils/date.ts:3 | Distinct dates have distinct keys. |
| `IsoDate.KeyOrder` | utils/date.ts:3 | For years 0..9999 the string order of keys is exactly the chronological order of the dates. |
| `Reminders.IndexByDate` | App.tsx:16-18 | The map's keys are exactly the dates present in the list. Each key maps to a reminder of the list with that date. |
| `Reminders.FindExactly` | App.tsx:132 | In a sorted collection, a lookup by key returns exactly the reminder with that date, and returns nothing exactly when no reminder has it. |
| `Reminders.InsertByKey` | App.tsx:27 | Insertion adds exactly the new reminder to the list's elements. |
| `Reminders.SortByKey` | App.tsx:27 | Sorting keeps exactly the same elements. |
| `Reminders.SortOrders` | App.tsx:27 | The sorted list is ascending by key and is a permutation of the input. |
| `Reminders.SortedUnique` | App.tsx:27 | Two strictly sorted lists with the same elements are equal, so any correct sort of a list with distinct keys gives the modelled result. |
| `Reminders.AddReminder` | App.tsx:24-28 | A present date leaves the list unchanged. An absent date adds exactly the new reminder to the elements. Either way the date is present afterwards. |
| `Reminders.AddAbsent` | App.tsx:24-28 | Adding an absent date to a sorted list inserts it in key order. The length grows by one, all old reminders are kept, and the result is strictly sorted. |
| `Reminders.AddKeepsSorted` | App.tsx:27 | Adding keeps the collection strictly sorted, which also excludes a second reminder for one date. |
| `Reminders.AddIdempotent` | App.tsx:26 | Adding again for the same date, with any icon, changes nothing. |
| `Reminders.RemoveKey` | App.tsx:34 | The filter never lengthens the list. `RemoveContents` states exactly which are kept and `RemoveKeepsOrder` that their order is kept. |
| `Reminders.RemoveContents` | App.tsx:34 | The filter keeps exactly the reminders with another date, so none with the removed date remains. |
| `Reminders.RemoveKeepsOrder` | App.tsx:34 | Filtering a concatenation filters each part in place, so kept reminders keep their relative order. |
| `Reminders.RemoveAbsent` | App.tsx:34 | Removing a date that no reminder has returns the same list. |
| `Reminders.RemoveKeepsSorted` | App.tsx:34 | Removing keeps the collection strictly sorted. |
| `Reminders.RemoveThenFind` | App.tsx:34 | After a remove, a lookup of that date finds nothing. |
| `CalendarGrid.PrevMonthEnd` | components/Calendar.tsx:27-28 | Day 0 of the reference month normalises to a valid date, and the day after it is day 1 of the reference month. |
| `CalendarGrid.BuildGrid` | components/Calendar.tsx:23-51 | The three push loops build exactly the 42 cells `GridCell` describes. The result is the same for the reference date and for day 1 of its month. |
| `CalendarGrid.GridIgnoresDay` | components/Calendar.tsx:24-27 | The grid depends only on the year and month of the reference date. |
| `CalendarGrid.PaddingBounds` | components/Calendar.tsx:44-48 | There are 0..6 leading padding cells and at least 5 trailing ones. |
| `CalendarGrid.GridCellValid` | components/Calendar.tsx:33-48 | Every cell holds a valid date, including every leading day number. A cell is flagged current-month exactly when its date lies in the reference month. |
| `CalendarGrid.GridContiguous` | components/Calendar.tsx:27-48 | Each cell's date is the day after the previous cell's date, across month and year boundaries. |
| `CalendarGrid.GridDayNumber` | components/Calendar.tsx:33-48 | Cell i is `firstDay` days before day 1 of the month, plus i days. |
| `CalendarGrid.GridColumnIsWeekday` | components/Calendar.tsx:21 | Cell i falls on weekday `i mod 7`, matching the Sunday-first header. |
| `CalendarGrid.GridDistinct` | components/Calendar.tsx:33-48 | Later cells hold chronologically later dates, so no date appears twice. |
| `CalendarGrid.GridCoversMonth` | components/Calendar.tsx:39-41 | Day k of the month is the flagged cell at `firstDay + k - 1`. |
| `CalendarGrid.CurrentMonthCount` | components/Calendar.tsx:39-41 | The number of flagged cells equals the number of days in the month. |
| `CalendarGrid.LeapFebruary` | components/Calendar.tsx:39-41 | February 2024 starts on a Thursday and its grid has 29 flagged cells. |
| `CalendarGrid.Click` | components/Calendar.tsx:72-94 | The handler of cell i selects a date exactly when the cell's date lies in the shown month, and then it selects that date. |
| `CalendarGrid.ClickSelectsShownMonth` | components/Calendar.tsx:72-94 | The dates some grid click selects are exactly the dates of the shown month. |
| `CalendarGrid.CellReminder` | components/Calendar.tsx:73-74 | A cell shows a reminder exactly when some reminder of the list has the cell's key, and what it shows is a reminder of the list with that key. |
| `CalendarGrid.CellShowsItsReminder` | components/Calendar.tsx:73-74 | Over a sorted collection, a cell shows an icon exactly when a reminder has the cell's key, and it is that reminder. |
| `AppState.App.constructor` | App.tsx:10-14 | Initial state: empty list, the given month, no selection, calendar hidden, calendar view. The welcome screen shows. |
| `AppState.App.ShouldShowWelcome` | App.tsx:56 | The welcome screen shows only while the date index is empty. |
| `AppState.App.RemindersMap` | App.tsx:16-18 | Every date held has an entry, and each entry is a held reminder with that date. |
| `AppState.App.SelectDate` | App.tsx:20-22 | Selecting a date sets `selectedDate` and changes nothing else. |
| `AppState.App.SelectedReminder` | App.tsx:132 | The modal receives a reminder of the list with the selected date's key, or nothing exactly when there is none. |
| `AppState.App.AddReminder` | App.tsx:24-30 | The list becomes the insert-if-absent result and stays valid. A present date leaves it unchanged. An absent date grows it by one and keeps every old reminder. The selection is cleared either way, the other fields are unchanged, and the welcome screen cannot show. |
| `AppState.App.RemoveReminder` | App.tsx:32-36 | The list becomes the filtered list and stays valid. No reminder for the date remains, and an absent date is a no-op. The selection is cleared and the other fields are unchanged. |
| `AppState.App.CloseModal` | App.tsx:135 | Closing the modal clears the selection and changes nothing else. |
| `AppState.App.PrevMonth` | App.tsx:38-40 | The shown month becomes day 1 of the previous month, with year rollover, and nothing else changes. |
| `AppState.App.NextMonth` | App.tsx:42-44 | The shown month becomes day 1 of the next month, with year rollover, and nothing else changes. |
| `AppState.App.ShowCalendar` | App.tsx:46-49 | `showCalendar` becomes true and the view becomes the calendar, so the welcome screen is gone. |
| `AppState.App.ReviewReminders` | App.tsx:51-54 | `showCalendar` becomes true and the view becomes the list, so the welcome screen is gone. |
| `AppState.App.SetView` | App.tsx:105-108 | The toggle sets the view and changes nothing else. |
| `AppState.NavigateBackAndForth` | App.tsx:38-44 | Going back one month and then forward one returns to day 1 of the starting month, and the reminders are unchanged. |
| `AppState.AddThenLookUp` | App.tsx:24-30 | Adding 2024-03-15 to an empty app and then selecting that date makes the modal receive exactly that reminder. |

## Left out

- Time zones. `formatDateISO` formats the UTC date of a `Date` built at local midnight (`utils/date.ts:3`). On a host east of UTC the key can name the previous day. The model uses one civil-date convention and does not reproduce this shift.
- Time of day. A `Date` also carries hours, minutes and seconds, which none of the modelled code reads. The model's date is the civil triple only.
- Date range. JavaScript's `Date` covers 100,000,000 days either side of 1970-01-01. Past that it becomes an invalid date, and `toISOString` then throws `RangeError`. The model's years are unbounded.
- Two-digit years. The `Date` constructor with separate fields reads a year in 0..99 as 1900 + y. The model always uses the civil year.
- Wall-clock reads. The clock reads at App.tsx:11, components/Calendar.tsx:53 and App.tsx:140 is nondeterministic. It becomes the constructor's `today` parameter. The "today" highlight and the footer year are presentation.
- Locale formatting: month names, the modal's long date, and capitalisation. These depend on host locale data.
- Presentation: all JSX, class strings, animations and `<style>` blocks. `components/ReminderModal.tsx` and `components/ReminderList.tsx` are not part of this model. The modal is the category picker; the list renders the collection in order.
- Persistence. The `useLocalStorage` hook is not part of this model. The collection is a plain field that starts at the hook's default, the empty list, and a previously saved list is not loaded. App.tsx does not sort the list it loads, so a stored list is assumed to satisfy the collection invariant.
- Memoisation. `useMemo` caches the grid and the map without changing results.
- Icon payload. The icon is an opaque string. The modal passes a category object where App.tsx:133 expects a string, and the core never inspects the value.
- String comparison. `localeCompare` is modelled as code-unit order. The two agree on keys of one shape, and the model does not cover locale collation of other strings.
- `Reminders.IndexByDate`: the contract does not say that the last of several reminders with one key wins, as a JavaScript `Map` built from entries does. The collection invariant rules such lists out.
- `Reminders.SortByKey`: stability of the sort is not proved. It matters only for equal keys, which the collection invariant rules out.
