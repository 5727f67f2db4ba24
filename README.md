# Task list manager — verified model of the store and the listing

The application keeps a list of tasks (name, due date, priority, optional
note, completion flag) in the browser. Users add, complete and remove tasks,
and can restrict the page to one month. Every change is saved and then the
page is redrawn as three lists: Active, Expired and Completed.

This project models that logic in Dafny, all of it from `script.js`:

- `dates.dfy`: `YYYY-MM-DD` strings. It defines the day number a date denotes
  (proleptic Gregorian calendar, read at UTC midnight), the millisecond
  difference and `Math.ceil` that give the day count, and `startsWith`. It
  also defines the lexicographic order of strings, which the code never uses
  itself: it is how the model states that sorting by the dates' instants sorts
  the date strings.
- `text.dfy`: `split('-').reverse().join('/')`, which shows a date as
  `DD/MM/YYYY`, the decimal form of a number, and the three expiry warnings.
- `tasks.dfy`: the `Task` record, the validation and record built by
  `addTask`, the `map` of `toggleTask` and the `filter` of `removeTask`.
- `seqs.dfy`, `sorting.dfy`: subsequences, and the stable sort that
  `Array.prototype.sort` performs with the due-date comparator.
- `view.dfy`: the pipeline of `renderTasks`, as data. It filters by month,
  sorts, annotates each task, deals the tasks into three lists with a loop,
  and decides on the "no task this month" message.
- `store.dfy`: the page state as a class. It holds the `tasks` array and the
  value last written to storage. Its methods are load, render,
  save-and-render, add, toggle, remove and clear-filter.
- `scenarios.dfy`: a worked day, with today June 15 of any four-digit year.

The month filter value and today's date are parameters. The store shows the
aliasing in `renderTasks`: with no filter, the array it sorts is the stored
array itself. After an unfiltered render the collection is therefore sorted
by due date (`Store.AfterRender`). Storage is written before that render, so
the saved order catches up only at the next save
(`Store.TaskStore.SaveAndRender`). The page load renders too, so the
reordering starts there (`Store.TaskStore.constructor`).

The reordering never shows on the page. The sort is stable, so it keeps the
order of each due day's tasks (`View.SortKeepsDayOrder`), and a listing
depends only on that order (`View.ListingDependsOnDayOrder`). Toggling,
removing, appending and rendering all preserve agreement on it
(`Store.DayOrderSurvivesChanges`). So after any number of changes, the
reordered collection and the collection without the reordering give the same
listing. `View.ListingIgnoresStoredOrder` states this for the next render.
`Store.ChangesAfterRenderListAlike` states it for the change that follows.

Points where the code behaves differently from what one might expect (the model follows the code):

- A month filter is a prefix test on the due-date string, not a comparison
  of year and month. `Dates.MonthPrefixIsSameMonth` proves the two agree for
  a well-formed `YYYY-MM` filter.
- Toggling or removing an unknown id is a silent no-op, not an error.
- Toggle and remove act on every task with the id. Ids are `Date.now()`
  values and are not guaranteed unique, so the model does not claim they are.
- Rendering is not read-only: without a filter it sorts the stored array.
- The warnings are the Portuguese texts of the code.

## Model

| member | source | states |
|---|---|---|
| `Dates.CeilDiv` | script.js:199 | the result is the least integer not below the quotient, as `Math.ceil` gives it |
| `Dates.DiffInDays` | script.js:196-199 | with `Dates.InstantMs` as `new Date(s)`, the UTC-midnight instant of a date, the day count is exactly the due day's number minus today's: both dates are UTC midnights, so the ceiling of the millisecond quotient is exact |
| `Dates.DayOrderIsStringOrder` | script.js:172 | for well-formed dates, comparing the instants `new Date` gives orders them as their strings do, and the instants are equal only for equal strings |
| `Dates.DayNumberMonotonic` | script.js:172 | a later calendar day has a larger day number |
| `Dates.StartsWithMeansPrefix` | script.js:163 | `startsWith` holds exactly when the string is the prefix followed by some rest |
| `Dates.MonthPrefixIsSameMonth` | script.js:163 | for a well-formed date and `YYYY-MM` filter, `startsWith` holds exactly when year and month are equal |
| `Text.Split` | script.js:216-217 | `split` always yields at least one field |
| `Text.SplitFieldsOmitSeparator` | script.js:216-217 | no field of a split contains the separator |
| `Text.Reverse` | script.js:216-217 | `reverse` keeps the length |
| `Text.ReverseAt` | script.js:216-217 | `reverse` puts element `i` at position `n-1-i` |
| `Text.Join` | script.js:216-217 | the join of no fields is empty; otherwise its length is the fields' total length plus one separator between each two neighbours |
| `Text.SplitThenJoin` | script.js:216-217 | joining the fields of a split with the same separator gives the string back |
| `Text.JoinThenSplit` | script.js:216-217 | splitting a join gives the fields back when none contains the separator |
| `Text.DisplayDate` | script.js:216-217 | the displayed date is exactly as long as the stored string, whatever that string is |
| `Text.DisplayOfWellFormedDate` | script.js:216-217 | a `YYYY-MM-DD` date is displayed as `DD/MM/YYYY` |
| `Text.DisplayReversesFields` | script.js:216-217 | the displayed fields, split at `/`, are the stored fields split at `-`, in reverse order |
| `Text.Decimal` | script.js:206 | the displayed number is a non-empty digit string with no leading zero |
| `Text.DecimalRoundTrip` | script.js:206 | reading the displayed digits back gives the number |
| `Text.ExpiryText` | script.js:202-213 | the "HOJE" warning is given exactly for a zero day count; a positive count opens with "expira em", a negative one with "expirou há", never the other |
| `Text.ExpiryTextRoundTrip` | script.js:202-213 | the warning determines the signed day count it was built from: ahead, today, or past by the absolute value |
| `Tasks.NewTask` | script.js:49-68 | creation is refused exactly when the name or the due date is empty; otherwise the new task has the given id, name, due date, priority, observation and creation date, and is not completed |
| `Tasks.Flip` | script.js:300 | a task keeps every field but the completion flag, which flips exactly when its id is the toggled one |
| `Tasks.Toggled` | script.js:299-301 | same length and order; only the completion flag changes, and it changes exactly on the tasks carrying the id |
| `Tasks.ToggleTwice` | script.js:299-301 | toggling the same id twice restores the collection |
| `Tasks.ToggleUnknownId` | script.js:299-301 | toggling an id no task carries changes nothing |
| `Tasks.TogglesCommute` | script.js:299-301 | toggles of two ids give the same collection in either order |
| `Tasks.ToggleKeepsDates` | script.js:299-301 | toggling keeps every due date well-formed |
| `Tasks.WithoutId` | script.js:322 | the filter never grows the collection |
| `Tasks.RemoveKeepsOthers` | script.js:322 | exactly the tasks whose id differs remain, each as often as before, in their original order |
| `Tasks.RemoveUnknownId` | script.js:322 | removing an id no task carries changes nothing |
| `Tasks.RemoveKeepsDates` | script.js:322 | removal keeps every due date well-formed |
| `Tasks.RemoveTwice` | script.js:322 | removing the same id again changes nothing more |
| `Tasks.RemoveFromAppend` | script.js:322 | removal of an id from a concatenation is the concatenation of the removals |
| `Tasks.RemoveUndoesAdd` | script.js:71 | removing a just-appended task whose id was unused gives back the collection before the append |
| `Sorting.InsertBy` | script.js:172 | inserting yields the old elements plus the new one, each exactly as often |
| `Sorting.InsertKeepsSorted` | script.js:172 | inserting into a sorted sequence keeps it sorted |
| `Sorting.SortBy` | script.js:172 | the sort result is a permutation of its input, ordered by non-decreasing key |
| `Sorting.InsertIsStable` | script.js:172 | the inserted element goes after every element with the same key |
| `Sorting.SortIsStable` | script.js:172 | elements with equal keys keep their relative order |
| `Sorting.SortOfSorted` | script.js:172 | sorting a sorted sequence leaves it unchanged |
| `Sorting.SortedUnique` | script.js:172 | a sorted sequence is determined by its elements of each key, in order, so the stable sort's result is unique |
| `View.InMonth` | script.js:163 | the month filter never grows the collection |
| `View.InMonthKeeps` | script.js:163 | the filter keeps exactly the tasks whose due date starts with the month, each as often as before, in their original order |
| `View.Shown` | script.js:153-164 | with no month selected all tasks are shown; otherwise exactly those whose due date starts with the month |
| `View.MonthAndDayCommute` | script.js:163 | keeping a month and keeping a due day commute |
| `View.SortByDue` | script.js:172 | with `View.Due` as the comparator's `new Date(t.dueDate)`, read as a day number, the sorted tasks are the same tasks, each as often, by non-decreasing due day |
| `View.SortOrdersDueDates` | script.js:172 | the sorted tasks are the same tasks with their due-date strings in ascending order |
| `View.ViewOf` | script.js:196-199 | a task's day count is its due day minus today |
| `View.ViewAt` | script.js:175-199 | the view at each position of the listing is the view of the shown task at that position |
| `View.ViewsDays` | script.js:175-199 | the view at each position counts the days from today to that task's due date |
| `View.ViewShowsTask` | script.js:216-251 | the view carries the task's id, name, priority and completion flag; both dates are displayed day/month/year; the note is the observation when that is non-empty and absent otherwise; the warning is present exactly when the task is open, and its text gives back the day count |
| `View.BucketOf` | script.js:259-271 | a view goes to Completed exactly when completed, to Expired exactly when open with a negative day count, to Active exactly when open with a non-negative one |
| `View.Classification` | script.js:259-271 | a completed task goes to Completed whatever its due date; an open task goes to Expired when its due date is before today, otherwise to Active; due today reads "expira HOJE!" |
| `View.BucketViews` | script.js:259-271 | every view in a list is classified into that list |
| `View.Distribute` | script.js:175-271 | the single pass over the sorted tasks builds each of the three lists |
| `View.BucketsPartition` | script.js:259-271 | every shown task lands in exactly one of the three lists |
| `View.BucketKeepsOrder` | script.js:175-271 | each list is a subsequence of the shown tasks, in the shown order |
| `View.BucketsAscending` | script.js:172-271 | with the shown tasks sorted, each list is ordered by day count |
| `View.NoTasksMessage` | script.js:275 | the message appears exactly when a month is selected and no task is due in it, and then all three lists are empty |
| `View.NothingShown` | script.js:155-164 | with a month selected, nothing is shown exactly when no task's due date starts with the month |
| `View.BuildListing` | script.js:153-275 | the three lists together have one entry per shown task, and the message is only given with a month selected |
| `View.ListingContents` | script.js:153-275 | the three lists together hold the views of the filtered tasks, once each, and each list is ordered by day count |
| `View.ListingDependsOnDayOrder` | script.js:153-275 | two collections holding each due day's tasks in the same order give the same listing, for every month and day |
| `View.SortKeepsDayOrder` | script.js:172 | sorting keeps the order of each due day's tasks |
| `View.ListingIgnoresStoredOrder` | script.js:153-172 | the next listing is the same whether or not the stored collection was first sorted |
| `Store.AfterRender` | script.js:153-172 | an unfiltered render leaves the collection sorted by due date, same tasks; a filtered one leaves it untouched |
| `Store.RenderSettles` | script.js:172 | after one unfiltered render, no later render changes the collection |
| `Store.ToggleByDay` | script.js:299-301 | toggling and picking one due day's tasks commute |
| `Store.RemoveByDay` | script.js:322 | removing and picking one due day's tasks commute |
| `Store.DayOrderSurvivesChanges` | script.js:71-325 | agreement on each due day's order survives a toggle, a removal, an appended task and a render |
| `Store.ChangesAfterRenderListAlike` | script.js:71-325 | after a render, a toggle, a removal or an added task gives the same listing as it would have without the render's reordering |
| `Store.TaskStore.constructor` | script.js:26-29 | the collection is the stored one, or empty when nothing is stored, as the load's render leaves it; storage is unchanged |
| `Store.TaskStore.Render` | script.js:123-282 | the listing is built from the collection as it was; the collection is then sorted if no month is selected, else unchanged |
| `Store.TaskStore.SaveAndRender` | script.js:90-100 | storage receives the collection as it was before the render's sort; then the render happens |
| `Store.TaskStore.Add` | script.js:36-83 | an empty name or due date changes nothing; otherwise the new task is appended, saved and rendered |
| `Store.TaskStore.Toggle` | script.js:289-305 | the toggled collection is saved and rendered |
| `Store.TaskStore.Remove` | script.js:312-325 | the collection without the id is saved and rendered |
| `Store.TaskStore.ClearFilter` | script.js:107-116 | everything is rendered and the collection ends sorted |
| `Scenarios.SameMonthDifference` | script.js:196-199 | two dates of one month are their day-of-month difference apart |
| `Scenarios.DueInFiveDays` | script.js:204-206 | today June 15 of any year, due June 20: Active, warned it expires in 5 days |
| `Scenarios.FiveDaysLate` | script.js:210-212 | today June 15 of any year, due June 10 and open: Expired, warned it expired 5 days ago |
| `Scenarios.DueOnTheDay` | script.js:207-209 | due June 15, today June 15 of the same year: Active, warned it expires today |
| `Scenarios.CompletedLate` | script.js:259-262 | completed and overdue: Completed, with no warning |
| `Scenarios.NoTaskInJuly` | script.js:275 | with every task due in June of year `y`, the filter `y-07` gets the message and three empty lists |

## Left out

- Markup and the DOM are not modelled: element lookup, `innerHTML`, `createElement`, `appendChild`, the button labels, the `completed-task` class and the inline `onclick` handlers. The output is the `Listing` record.
- The priority CSS class (`p-alta`, `p-media`, `p-baixa`) is not modelled. It only styles the item; the view carries the priority value itself.
- Storage and JSON are reduced to the `saved` field. `JSON.stringify` and `JSON.parse` are taken as exact inverses, and unreadable stored data is not modelled.
- `alert` and `confirm` are not modelled. A failed validation is the `Failure` result, and `Remove` models a confirmed removal; a cancelled one changes nothing.
- `Date.now()` ids and today's date are parameters, so the clock is not modelled. Id uniqueness is not claimed, because the code does not guarantee it.
- `parseInt` of the priority field is not modelled; priority is taken as an integer.
- Clearing the form fields after an add is not modelled (DOM).
- Store.TaskStore.Render, the constructor and the methods that call Render require every stored due date to be a well-formed `YYYY-MM-DD`. Any other string gives either NaN, which makes the comparator at script.js:172 inconsistent and the order implementation-defined, or an instant that need not be a UTC midnight, whose day count at script.js:196-199 would be a rounded fraction. The model assumes the due-date field, read at script.js:44, is a date input that yields `YYYY-MM-DD` or nothing.
- Dates are four-digit years 0000 to 9999. Expanded years (`+010000-01-01`) are not modelled.
- Floating point is not modelled. Instants are whole milliseconds, well below 2^53, and the quotient by 86400000 is a whole number, so the JavaScript division and `Math.ceil` are exact.
- The claim that the unfiltered listing is the union of the listings for each month is not stated. Each task's month membership is characterised instead (`View.InMonthKeeps`, `Dates.MonthPrefixIsSameMonth`).
