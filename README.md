# Pharmacy shift scheduler: the roster engine in Dafny

This project models the core of a small browser application that lets a
pharmacy build a monthly shift roster. The store holds four things:

- a list of pharmacists, each with a position (正職 full time, 兼職 part time, OPD支援 outpatient support);
- a list of shift templates, each with a start and end time in "HH:MM";
- the schedule, a map from a "YYYY-MM-DD" date to a map from shift-template id to pharmacist id;
- a list of leave records, each a (pharmacist, date) pair with an id.

The store offers:

- add, update and delete for pharmacists and for shift templates;
- `assignShift`, which puts a pharmacist on a shift or clears it;
- `addLeave`, which records leave and clears that pharmacist's shifts on the date;
- `deleteLeave` and `isPharmacistOnLeave`.

Five pages apply rules on top of the store:

- the schedule page reads times, matches templates to its three time slots by half-open overlap, lists the days of a month, warns about under-staffed Saturdays, flags leave conflicts, and offers only pharmacists who are not on leave;
- the batch ("work assignment") page assigns one shift to one pharmacist on every day of a month that is not a leave day, and counts the days;
- the dashboard buckets issues by date, counts them by severity, sorts the dates and chooses a badge per severity;
- the leave page toggles a pharmacist's leave on a clicked day;
- the support page parses and clamps the number typed into a cell, and looks up the need a cell shows.

Modules follow the program:

- `Types` holds the entities of `src/lib/types.ts`.
- `Numerals` models JavaScript's `Number` on digit strings, `parseInt`, and decimal formatting.
- `Dates` covers what the code asks of its date library: days in a month, the next day, the weekday, "YYYY-MM-DD" formatting, and the walk over a month.
- `Seqs` defines order-preserving sub-sequences.
- `Roster` models `src/contexts/AppContext.tsx`. Each operation is a function on a `Roster` value, with lemmas about it. The class `RosterStore` holds the same state in fields, and each of its methods is proved to produce exactly the value the matching function computes.
- `SchedulePage`, `WorkAssignmentPage`, `DashboardPage`, `LeavePage` and `SupportPage` follow the five pages.

Where the source updates state step by step, the model does too:

- `assignShift` and `addLeave` (with its `forEach` over the day's shifts) are methods of `RosterStore`;
- the month walk is a `while` loop;
- the batch assignment loop is a method over the store;
- the dashboard's `reduce` into a dictionary of lists is a loop over the issues.

Each of these methods is proved against a specification function.

The declared type of a schedule day in `src/lib/types.ts:19-28` is `{shifts, support, notes}`. Every piece of code that reads or writes the schedule treats a day as a flat shift-id-to-pharmacist-id map instead. The model follows the code.

Three things are parameters of the model rather than computed:

- The uuid the store generates for a new pharmacist, shift or leave record is the `newId` parameter.
- The issues shown on the dashboard are an input, since the function that finds them is not part of this model.
- The support needs list is an input, for the same reason.

## Model

| member | source | states |
|---|---|---|
| Types.PositionLabel | src/lib/types.ts:5 | each of the three positions has a label that reads back as that position |
| Numerals.Decimal | src/pages/Schedule.tsx:96 | the decimal numeral of a number is a non-empty digit string with no leading zero except for 0 |
| Numerals.DecimalValue | src/pages/Schedule.tsx:96 | reading a decimal numeral's digits gives the number back |
| Numerals.PadStartValue | src/pages/Schedule.tsx:96 | zero-padding a digit string keeps it a digit string of the same value |
| Numerals.NumberOfDecimal | src/pages/Schedule.tsx:25 | `Number` reads a decimal numeral back as its value |
| Numerals.JsNumber | src/pages/Schedule.tsx:25 | `Number` on a string of digits is its value and anything else NaN (no contract of its own; see `NumberOfDecimal`) |
| Numerals.TrimStart | src/pages/Support.tsx:13 | `parseInt` skips exactly the leading white space: what remains is a suffix that starts with a non-space, and everything dropped was white space |
| Numerals.DigitPrefix | src/pages/Support.tsx:13 | the longest run of digits at the start of the text: the next character, if any, is not a digit |
| Numerals.ParseInt | src/pages/Support.tsx:13 | `parseInt(value, 10)` yields a number exactly when a digit follows the leading white space and optional sign |
| Numerals.ParseIntDecimal | src/pages/Support.tsx:13 | `parseInt` reads a decimal numeral back as its value, whatever non-digit text follows |
| Numerals.ParseIntNegativeDecimal | src/pages/Support.tsx:13 | `parseInt` reads "-" and a numeral as the negated value |
| Dates.DaysInMonth | src/pages/Schedule.tsx:47-48 | a month has 28 to 31 days, and 29 exactly for February of a leap year |
| Dates.NextDay | src/pages/Schedule.tsx:54 | `day.add(1, 'day')` gives a valid date strictly after the given one |
| Dates.NextDayIsSuccessor | src/pages/Schedule.tsx:54 | no valid date lies strictly between a day and the next day |
| Dates.Weekday | src/pages/Schedule.tsx:99-100 | `day.day()` is a weekday number from 0 (Sunday) to 6 (Saturday) |
| Dates.DaysBeforeYearClosedForm | src/pages/Schedule.tsx:99-100 | the days before a year are 365 a year plus the Gregorian leap days: one per fourth year, less one per hundredth, plus one per four-hundredth |
| Dates.SundayAnchor | src/pages/Schedule.tsx:99-100 | weekday 0 is Sunday: 2024-01-07, a Sunday, has weekday 0 |
| Dates.NextDayWeekday | src/pages/Schedule.tsx:99-100 | the weekday advances by one, Saturday wrapping to Sunday, from one day to the next |
| Dates.DaysAfter | src/pages/Schedule.tsx:54 | `n` applications of `add(1, 'day')` give a valid day |
| Dates.DaysAfterWeekday | src/pages/Schedule.tsx:99-100 | `n` days later the weekday has advanced by `n`, modulo 7 |
| Dates.WeekdayOnceInSevenDays | src/pages/Schedule.tsx:99-100 | in any seven consecutive days each weekday falls on exactly one of them |
| Dates.Format | src/pages/Schedule.tsx:96 | `format('YYYY-MM-DD')`: the zero-padded year, month and day joined by "-" (no contract of its own; `WorkAssignmentPage.MonthKeysOfMonth` relates it to the days of a month) |
| Dates.MonthDays | src/pages/Schedule.tsx:49-55 | the list of days of a month has one valid date per day number from 1 to the month's length |
| Dates.MonthDaysExactlyOnce | src/pages/Schedule.tsx:49-55 | every valid day of the month is listed, nothing else is, and the list increases strictly |
| Dates.DaysOfMonth | src/pages/Schedule.tsx:49-55 | the `while` loop from the first of the month, up to and including its last day, yields exactly the list of days of that month |
| Roster.ReplaceById | src/contexts/AppContext.tsx:81-83 | an update keeps the list's length and order, replaces each element whose id matches, and keeps the others |
| Roster.ReplaceUnknownIsNoOp | src/contexts/AppContext.tsx:81-83 | updating with an id that no element has changes nothing |
| Roster.ReplaceKnownAt | src/contexts/AppContext.tsx:93-95 | with unique ids, an update replaces exactly the one element with that id |
| Roster.ReplaceKeepsUniqueIds | src/contexts/AppContext.tsx:93-95 | an update keeps ids unique |
| Roster.RemoveById | src/contexts/AppContext.tsx:85-87 | a delete keeps every element with another id, drops every element with that id, and never grows the list |
| Roster.RemoveByIdIsFilter | src/contexts/AppContext.tsx:85-87 | the delete is exactly `filter`: the survivors keep their order, and each element with another id survives as often as it occurs |
| Roster.RemoveAbsentIsNoOp | src/contexts/AppContext.tsx:97-99 | deleting an id that no element has changes nothing |
| Roster.RemoveKnownLength | src/contexts/AppContext.tsx:97-99 | with unique ids, deleting a present id shortens the list by exactly one |
| Roster.RemoveKeepsUniqueIds | src/contexts/AppContext.tsx:85-87 | a delete keeps ids unique |
| Roster.RemoveAfterAppend | src/contexts/AppContext.tsx:77-87 | adding an element with a fresh id and deleting that id gives the list back |
| Roster.AppendFreshKeepsUniqueIds | src/contexts/AppContext.tsx:77-79 | appending an element with a fresh id keeps ids unique |
| Roster.DayOf | src/contexts/AppContext.tsx:103-105 | a date without an entry reads as an empty day (no contract of its own) |
| Roster.AssignShiftOp | src/contexts/AppContext.tsx:101-114 | the day entry exists afterwards; "unassign" removes the shift's key and any other id is stored under it; other shifts of the day and other dates are unchanged |
| Roster.UnassignKeepsDay | src/contexts/AppContext.tsx:104-109 | unassigning the last shift of a day leaves an empty day entry rather than deleting it |
| Roster.AssignThenUnassign | src/contexts/AppContext.tsx:101-114 | the last write to a slot wins: assigning and then unassigning is the same as only unassigning |
| Roster.WithoutPharmacist | src/contexts/AppContext.tsx:126-131 | clearing a day keeps exactly the shifts held by someone else, with their holders |
| Roster.ClearForLeave | src/contexts/AppContext.tsx:121-142 | other dates are untouched; the date keeps only shifts of others; it is deleted only when it held the pharmacist and nothing else remains; a day without the pharmacist leaves the schedule unchanged |
| Roster.ClearForLeaveKeepsUntouchedDay | src/contexts/AppContext.tsx:133-139 | a day entry with no shift of the pharmacist is never removed, even when empty |
| Roster.ClearForLeaveDeletesOnlyEmptied | src/contexts/AppContext.tsx:133-139 | a day entry is removed exactly when the pharmacist holds a shift of it and holds all of them |
| Roster.OnLeave | src/contexts/AppContext.tsx:149-151 | `isPharmacistOnLeave`: some record has the pharmacist and the date (no contract of its own; `AddLeaveFresh`, `DeleteLeaveRemoves` and `LeaveOpsKeepOtherPairs` state how the leave operations change it) |
| Roster.WithoutLeave | src/contexts/AppContext.tsx:146 | the filtered list holds exactly the records not for the pair, and the pair is no longer on leave |
| Roster.WithoutLeaveAppend | src/contexts/AppContext.tsx:146 | the filter distributes over concatenation, so the kept records stay in their order |
| Roster.WithoutLeaveAbsent | src/contexts/AppContext.tsx:146 | filtering out a pair that is not on leave returns the same list |
| Roster.AddLeaveOp | src/contexts/AppContext.tsx:116-143 | `addLeave` on the whole store: nothing for a pair already on leave, otherwise one record appended and the day cleared (no contract of its own; its properties are the `AddLeave...` lemmas) |
| Roster.DeleteLeaveOp | src/contexts/AppContext.tsx:145-147 | `deleteLeave` on the whole store: only the leave list changes (no contract of its own; see `DeleteLeaveRemoves`) |
| Roster.AddLeaveIdempotent | src/contexts/AppContext.tsx:117 | `addLeave` on a pair already on leave changes neither leave nor schedule, and a second `addLeave` never changes anything |
| Roster.AddLeaveFresh | src/contexts/AppContext.tsx:118 | on a fresh pair exactly one record is appended, the pair is then on leave, and the pharmacist and shift lists are kept |
| Roster.AddLeaveClearsShifts | src/contexts/AppContext.tsx:121-131 | after `addLeave` the pharmacist holds no shift that day, everybody else keeps theirs, and other dates are untouched |
| Roster.DeleteLeaveRemoves | src/contexts/AppContext.tsx:145-147 | after `deleteLeave` the pair is not on leave, every other record is kept, and the schedule and pharmacists are unchanged |
| Roster.AddThenDeleteLeave | src/contexts/AppContext.tsx:116-147 | adding leave on a fresh pair and deleting it gives the leave list back exactly, but the schedule stays cleared |
| Roster.LeaveOpsKeepOtherPairs | src/contexts/AppContext.tsx:116-147 | adding or deleting leave for one pair does not change whether any other pair is on leave |
| Roster.AddLeaveKeepsNoDuplicates | src/contexts/AppContext.tsx:116-118 | `addLeave` keeps at most one record per (pharmacist, date) pair |
| Roster.WithoutLeaveKeepsNoDuplicates | src/contexts/AppContext.tsx:145-147 | `deleteLeave` keeps at most one record per pair |
| Roster.RosterStore.constructor | src/contexts/AppContext.tsx:41-44 | the store starts with no pharmacists, shifts, schedule or leave |
| Roster.RosterStore.AddPharmacist | src/contexts/AppContext.tsx:77-79 | appends the new pharmacist, changes nothing else, and keeps the store consistent when the id is fresh |
| Roster.RosterStore.UpdatePharmacist | src/contexts/AppContext.tsx:81-83 | replaces by id, changes nothing else, and keeps the store consistent |
| Roster.RosterStore.DeletePharmacist | src/contexts/AppContext.tsx:85-87 | removes by id and does not cascade into the schedule or the leave |
| Roster.RosterStore.AddShift | src/contexts/AppContext.tsx:89-91 | appends the new template, changes nothing else, and keeps the store consistent when the id is fresh |
| Roster.RosterStore.UpdateShift | src/contexts/AppContext.tsx:93-95 | replaces by id and changes nothing else |
| Roster.RosterStore.DeleteShift | src/contexts/AppContext.tsx:97-99 | removes by id and does not cascade into the schedule |
| Roster.RosterStore.AssignShift | src/contexts/AppContext.tsx:101-114 | the new schedule is exactly `AssignShiftOp` of the old one, and nothing else changes |
| Roster.RosterStore.AddLeave | src/contexts/AppContext.tsx:116-143 | the new state is exactly `AddLeaveOp` of the old one, and the store stays consistent |
| Roster.RosterStore.DeleteLeave | src/contexts/AppContext.tsx:145-147 | the new state is exactly `DeleteLeaveOp` of the old one, and the store stays consistent |
| Roster.RosterStore.IsPharmacistOnLeave | src/contexts/AppContext.tsx:149-151 | reads the store's leave list through `OnLeave` (no contract of its own) |
| Roster.ClearShiftsOf | src/contexts/AppContext.tsx:124-131 | the `forEach` deletes exactly the pharmacist's shifts, and `changed` is set exactly when the pharmacist held one |
| SchedulePage.SplitColon | src/pages/Schedule.tsx:25 | `split(':')` always gives at least one part |
| SchedulePage.SplitNoColon | src/pages/Schedule.tsx:25 | text without ':' splits into itself alone |
| SchedulePage.SplitAtColon | src/pages/Schedule.tsx:25 | text before the first ':' is the first part, and the rest is split again |
| SchedulePage.ToMinutesOfDigits | src/pages/Schedule.tsx:24-27 | "HH:MM" with digit parts is HH * 60 + MM minutes |
| SchedulePage.ToMinutesOfClock | src/pages/Schedule.tsx:24-27 | a clock time written with two-digit hours and minutes reads back as hours * 60 + minutes |
| SchedulePage.ToMinutesWithoutColon | src/pages/Schedule.tsx:24-27 | a time without ':' has no minutes part and is NaN |
| SchedulePage.ToMinutes | src/pages/Schedule.tsx:24-27 | `toMinutes` as `split` and `Number`, NaN as none (no contract of its own; `ToMinutesOfDigits`, `ToMinutesOfClock` and `ToMinutesWithoutColon` state its values) |
| SchedulePage.MorningSlotMinutes | src/pages/Schedule.tsx:18 | the morning slot runs from minute 510 to minute 720 |
| SchedulePage.AfternoonSlotMinutes | src/pages/Schedule.tsx:19 | the afternoon slot runs from minute 780 to minute 1050 |
| SchedulePage.EveningSlotMinutes | src/pages/Schedule.tsx:20 | the evening slot runs from minute 1080 to minute 1320 |
| SchedulePage.IntervalsOverlap | src/pages/Schedule.tsx:34-36 | the half-open test on minutes, with an end of 0 read as 1440 (no contract of its own; see the three lemmas below) |
| SchedulePage.DoTimesOverlap | src/pages/Schedule.tsx:23-37 | `doTimesOverlap`: all four times read, then the interval test; an unreadable time overlaps nothing (no contract of its own) |
| SchedulePage.MidnightEndRunsToEndOfDay | src/pages/Schedule.tsx:34-36 | a shift ending at "00:00" overlaps a slot exactly when it starts before the slot ends and the slot starts before minute 1440 |
| SchedulePage.NightShiftInEveningOnly | src/pages/Schedule.tsx:18-36 | a shift from "18:00" to "00:00" is listed under the evening slot and under no other |
| SchedulePage.OverlapIffCommonMinute | src/pages/Schedule.tsx:36 | for non-empty intervals, the overlap test holds exactly when some minute lies in both half-open intervals |
| SchedulePage.TouchingIsNotOverlap | src/pages/Schedule.tsx:36 | a shift ending exactly when the slot starts, or starting exactly when it ends, does not overlap it |
| SchedulePage.ShiftsForSlot | src/pages/Schedule.tsx:57-59 | exactly the templates that overlap the slot, in their original order |
| SchedulePage.AssignedCount | src/pages/Schedule.tsx:104 | the number of the day's shifts held by a non-empty id (no contract of its own; see `AssignRaisesCount`) |
| SchedulePage.SaturdayWarning | src/pages/Schedule.tsx:102-113 | the warning shows on a Saturday with fewer than 3 assignments, and on no other day (no contract of its own; see `ThirdAssignmentClearsWarning`) |
| SchedulePage.HasLeaveConflict | src/pages/Schedule.tsx:154 | an entry is flagged when a non-empty id holds it and that pharmacist is on leave that date (no contract of its own; see `OfferedChoiceHasNoConflict`) |
| SchedulePage.AssignRaisesCount | src/pages/Schedule.tsx:104 | assigning somebody to a shift nobody held raises the day's truthy-assignment count by one |
| SchedulePage.ThirdAssignmentClearsWarning | src/pages/Schedule.tsx:102-113 | a Saturday with two assignments shows the warning, and a third assignment to a free shift clears it |
| SchedulePage.AvailablePharmacists | src/pages/Schedule.tsx:194 | exactly the pharmacists not on leave that date, in their original order |
| SchedulePage.AvailableKeepsMultiplicity | src/pages/Schedule.tsx:194 | the filter keeps each pharmacist not on leave as often as the list holds them, and drops the others |
| SchedulePage.PharmacistsOnLeave | src/pages/Schedule.tsx:98 | exactly the pharmacists on leave that date, in roster order (a subsequence of the roster) |
| SchedulePage.OnLeaveKeepsMultiplicity | src/pages/Schedule.tsx:98 | the filter lists each pharmacist on leave as often as the roster does, and no one else |
| SchedulePage.AvailableAndOnLeavePartition | src/pages/Schedule.tsx:98-194 | every pharmacist is either offered in the dialog or shown on leave, never both |
| SchedulePage.Ids | src/pages/Schedule.tsx:209-211 | the select's values are the ids of the listed pharmacists, position by position |
| SchedulePage.AssignOptions | src/pages/Schedule.tsx:208-211 | "unassign" first, then the ids of the available pharmacists (no contract of its own; see `AssignOptionsExactly`) |
| SchedulePage.AssignOptionsExactly | src/pages/Schedule.tsx:208-211 | the dialog offers exactly "unassign" and the ids of pharmacists not on leave that date |
| SchedulePage.OfferedChoiceHasNoConflict | src/pages/Schedule.tsx:154 | whatever the dialog offers, choosing it never produces a leave conflict on that shift |
| SchedulePage.WeekendCells | src/pages/Schedule.tsx:132-146 | a Saturday has the morning and afternoon cells, the Sunday after it none, and the Monday after that all three |
| SchedulePage.CellsInSevenDays | src/pages/Schedule.tsx:132-146 | in any seven consecutive days exactly one day has no cell, exactly one has two, and the other five have three |
| SchedulePage.AssigneeLabel | src/pages/Schedule.tsx:152-166 | a cell with no assignment shows 未指派; when some listed pharmacist has the assigned id, the cell shows the name of the first such pharmacist |
| SchedulePage.FindPharmacist | src/pages/Schedule.tsx:153 | the found pharmacist is the first one on the list with the id; when none is found, no pharmacist has it |
| SchedulePage.ListedAssigneeShowsName | src/pages/Schedule.tsx:152-166 | with ids unique on the roster, an assigned shift shows its pharmacist's name |
| SchedulePage.DeletedAssigneeShowsUnassigned | src/pages/Schedule.tsx:152-166 | after its pharmacist is deleted, an assigned shift shows 未指派 yet still counts towards the Saturday head count |
| WorkAssignmentPage.MonthKeys | src/pages/WorkAssignment.tsx:37-38 | one date string per day of the month |
| WorkAssignmentPage.MonthKeyAt | src/pages/WorkAssignment.tsx:38 | the i-th key is the formatted (i + 1)-th day of the month |
| WorkAssignmentPage.MonthKeysOfMonth | src/pages/WorkAssignment.tsx:32-38 | a string is a key exactly when it is the formatted form of a valid day of that month |
| WorkAssignmentPage.IsSelected | src/pages/WorkAssignment.tsx:20 | null and the empty string both count as "not chosen" (no contract of its own) |
| WorkAssignmentPage.AssignDays | src/pages/WorkAssignment.tsx:37-44 | the schedule after the loop has visited the given dates in order (no contract of its own; the lemmas below state its effect) |
| WorkAssignmentPage.WorkingDays | src/pages/WorkAssignment.tsx:39-41 | the days counted are exactly the visited days on which the pharmacist is not on leave |
| WorkAssignmentPage.AssignMonthOp | src/pages/WorkAssignment.tsx:19-44 | without a pharmacist and a shift selected nothing changes; otherwise only the schedule changes, and the count is at most the month's length |
| WorkAssignmentPage.AssignedOnWorkingDays | src/pages/WorkAssignment.tsx:37-42 | on every visited day not on leave the shift ends up held by the pharmacist, whoever held it before |
| WorkAssignmentPage.UnvisitedDateKept | src/pages/WorkAssignment.tsx:39 | a day that was not visited, or is a leave day, keeps its entry |
| WorkAssignmentPage.LeaveDayKept | src/pages/WorkAssignment.tsx:39 | on the pharmacist's leave days of the month the schedule entry is left unchanged |
| WorkAssignmentPage.OutsideMonthKept | src/pages/WorkAssignment.tsx:37-40 | dates outside the chosen month are not modified |
| WorkAssignmentPage.NewEntriesAreWorkingDays | src/pages/WorkAssignment.tsx:37-42 | the only day entries created are for working days |
| WorkAssignmentPage.OtherShiftsKept | src/pages/WorkAssignment.tsx:37-40 | the other shifts of every day keep their holders |
| WorkAssignmentPage.WorkingDaysOfPrefix | src/pages/WorkAssignment.tsx:37-42 | walking the keys of the month from the first day, the first `k` turns give exactly as many working days as there are days 1 to `k` not on leave |
| WorkAssignmentPage.MonthCountIsWorkingDays | src/pages/WorkAssignment.tsx:36-41 | the count equals the number of days of the month not on leave, and so is at most the month's length; Sundays count like other days |
| WorkAssignmentPage.StepOfPrefix | src/pages/WorkAssignment.tsx:37-44 | one more day of the walk is one more step of the assignment and of the count |
| WorkAssignmentPage.AssignMonth | src/pages/WorkAssignment.tsx:19-44 | the handler's effect on the store and its outcome are exactly `AssignMonthOp` |
| WorkAssignmentPage.VisitDay | src/pages/WorkAssignment.tsx:38-41 | one loop iteration assigns unless the day is a leave day, and reports whether it did |
| WorkAssignmentPage.VisitMonth | src/pages/WorkAssignment.tsx:32-44 | the loop produces the assignment over the month's days and counts its working days |
| DashboardPage.IssuesOn | src/pages/Dashboard.tsx:38-44 | a date's bucket holds exactly that date's issues, in their original relative order |
| DashboardPage.FirstDates | src/pages/Dashboard.tsx:38-44 | the keys are exactly the dates that occur, each once |
| DashboardPage.GroupIssues | src/pages/Dashboard.tsx:38-44 | the `reduce` makes a key for each date in first-seen order, with each key's list equal to that date's bucket |
| DashboardPage.NoBucketWithoutDate | src/pages/Dashboard.tsx:39-41 | a date that no issue has gets an empty bucket |
| DashboardPage.IssueInOwnBucket | src/pages/Dashboard.tsx:38-44 | every issue lands in the bucket of its own date |
| DashboardPage.OccurrencesOfDistinct | src/pages/Dashboard.tsx:38-44 | a key list without repeats lists each date at most once |
| DashboardPage.BucketTotalAppend | src/pages/Dashboard.tsx:42 | pushing one issue adds one to its own date's bucket total |
| DashboardPage.BucketSizesSum | src/pages/Dashboard.tsx:38-44 | over distinct dates covering all issues, the bucket sizes add up to the number of issues |
| DashboardPage.GroupSizesSum | src/pages/Dashboard.tsx:38-44 | the bucket sizes sum to `issues.length` |
| DashboardPage.CountSeverity | src/pages/Dashboard.tsx:46-48 | no severity count exceeds the number of issues |
| DashboardPage.SeverityCountsSum | src/pages/Dashboard.tsx:46-48 | the high, medium and low counts add up to the total |
| DashboardPage.Insert | src/pages/Dashboard.tsx:116-117 | inserting into an ascending list keeps it ascending and adds exactly the element |
| DashboardPage.SortDates | src/pages/Dashboard.tsx:116-117 | the sort yields an ascending permutation of the dates |
| DashboardPage.SortedDatesStrictlyAscend | src/pages/Dashboard.tsx:116-117 | sorting distinct dates yields the same dates in strictly ascending order |
| DashboardPage.IssueListOf | src/pages/Dashboard.tsx:109-136 | the "no problems" state is shown exactly when there are no issues |
| DashboardPage.IssueListOrdered | src/pages/Dashboard.tsx:116-124 | with issues, the boxes are in strictly ascending date order, one per date that has an issue, each listing that date's issues in their original order |
| DashboardPage.Boxes | src/pages/Dashboard.tsx:116-124 | one box per given date, in that order, each holding that date's bucket |
| DashboardPage.DatesOf | src/pages/Dashboard.tsx:118 | the headings are the boxes' dates, position by position |
| DashboardPage.ListIssues | src/pages/Dashboard.tsx:109-136 | rendering the card from the reduce's result gives exactly `IssueListOf` |
| DashboardPage.BadgeVariant | src/pages/Dashboard.tsx:20-27 | high, medium and low map to destructive, default and secondary (no contract of its own; see `SeverityBadgesDistinct`) |
| DashboardPage.SeverityIcon | src/pages/Dashboard.tsx:29-36 | high, medium and low map to the X-circle, triangle and check icons (no contract of its own) |
| DashboardPage.SeverityLabel | src/pages/Dashboard.tsx:129 | high, medium and low read 高, 中 and 低 (no contract of its own) |
| DashboardPage.SeverityBadgesDistinct | src/pages/Dashboard.tsx:20-36 | high, medium and low get different variants, icons and labels, and each label reads back as its severity |
| LeavePage.PharmacistLeaveDates | src/pages/Leave.tsx:15-17 | the marked dates are exactly the dates of the selected pharmacist's records; with nobody selected there are none |
| LeavePage.DayClickOp | src/pages/Leave.tsx:19-30 | `handleDayClick` on values: nothing without a selection, delete on a marked date, add otherwise (no contract of its own; see the lemmas below) |
| LeavePage.CalendarIgnoresOnlySundays | src/pages/Leave.tsx:67 | with a pharmacist chosen, a click changes nothing exactly on a Sunday |
| LeavePage.CalendarClicksInSevenDays | src/pages/Leave.tsx:67 | of any seven consecutive days, exactly one click changes nothing |
| LeavePage.Toggle | src/pages/Leave.tsx:23-29 | delete the pair's leave when it is on leave, add it otherwise (no contract of its own; see `DayClickToggles`) |
| LeavePage.DayClickToggles | src/pages/Leave.tsx:23-29 | a click flips whether the selected pharmacist is on leave that day |
| LeavePage.DayClickKeepsOthers | src/pages/Leave.tsx:23-29 | a click leaves the leave of every other (pharmacist, date) pair as it was |
| LeavePage.DayClickTwice | src/pages/Leave.tsx:23-29 | clicking a free day twice gives the leave list back exactly, but not the shifts the first click cleared |
| LeavePage.DayClickKeepsConsistent | src/pages/Leave.tsx:19-30 | a click keeps the store consistent |
| LeavePage.DayClick | src/pages/Leave.tsx:19-30 | the handler on the store does nothing without a selection, deletes leave on a marked date and adds it otherwise |
| SupportPage.CountChange | src/pages/Support.tsx:12-17 | NaN sends no update; otherwise the update is for the cell, is never negative, and is the parsed count when that is not negative and 0 when it is |
| SupportPage.CountOfDecimal | src/pages/Support.tsx:12-17 | typing a number, possibly followed by other text, sends that number |
| SupportPage.CountOfNegative | src/pages/Support.tsx:15 | typing a negative number sends 0 |
| SupportPage.CountOfNoDigits | src/pages/Support.tsx:13-14 | an empty input, or one without digits, sends nothing |
| SupportPage.FindNeed | src/pages/Support.tsx:20 | `find` returns the first need for the cell, or none when no need is for it |
| SupportPage.GetNeed | src/pages/Support.tsx:19-21 | a cell with no need shows 0, and a non-zero value is the count of a need for that cell |
| SupportPage.GetNeedShows | src/pages/Support.tsx:19-21 | with one need per cell, the input shows that need's count, and 0 when the cell has none |
| SupportPage.ShownCountRoundTrip | src/pages/Support.tsx:55-56 | re-entering the shown count, when it is not negative, asks the store to keep it |
| SupportPage.EditableCells | src/pages/Support.tsx:47-48 | ten inputs: the two rows times the five weekdays |
| SupportPage.EditableCellsExactly | src/pages/Support.tsx:64-65 | the inputs are exactly days 1 to 5 in both slots, each once |

## Left out

- Loading from and saving to `localStorage`, and the default sample pharmacists and shift templates used when nothing is stored (`src/contexts/AppContext.tsx:6-18, 46-75`): these are browser I/O. The store starts empty.
- uuid generation: a generated id is a `newId` parameter. Consistency results assume the id is fresh.
- The date library is not modelled; its arithmetic is written out on (year, month, day) values in the proleptic Gregorian calendar. Locale names of weekdays and the "MM/DD (ddd)" headings are left out.
- React state batching and stale closures: every store operation is applied to the current state, one after another. `addLeave` checks the leave list visible to the call; in a burst of calls within one render the source may append a duplicate record, and the model does not capture that.
- Roster.RosterStore.AssignShift: the source's spread copy shares the day object with the previous state and mutates it in place. The model replaces the whole schedule value, so that aliasing is not captured.
- `setSchedule`, exposed by the store to pages outside this model, is not modelled.
- `getScheduleIssues`, `supportNeeds` and `updateSupportNeed` have no code in the files modelled here; issues and needs are inputs, and `CountChange` returns the update it would request.
- `EventsManager`, the staff and shift pages' dialogs, the layout and the toasts: these are UI. The batch page's success toast, which shows the pharmacist's and shift's names, is not modelled; the count it shows is.
- Numerals.ParseInt: integers are unbounded, so values above 2^53, which lose precision in JavaScript, are read exactly; the sign of -0 is not kept; and the white space skipped is the ASCII set plus U+00A0, U+FEFF, U+2028 and U+2029, not every Unicode space separator.
- Numerals.JsNumber: reads only an all-digit string, the empty string giving 0. Spaces, signs and decimal points are read as NaN, unlike `Number`.
- DashboardPage.StrLt: `localeCompare` is modelled as code-point order. This agrees with the locale order on "YYYY-MM-DD" strings of ASCII digits.
- LeavePage.DayClickOp: the source compares a record's parsed date with the clicked day by calendar day. The model compares the record's date string with the clicked day formatted as "YYYY-MM-DD", which agrees when records hold well-formed dates.
- LeavePage.CalendarClickOp: the calendar widget itself is not modelled. Its `disabled` rule is stated as "a Sunday click does nothing".
- WorkAssignmentPage.VisitMonth: the source advances the day and assigns in one loop. The model first lists the days of the month with `Dates.DaysOfMonth`, the same walk the schedule page makes, and then visits the listed days in order.
- The type declared for a schedule day (`{shifts, support, notes}`) is not modelled, because no code in the model reads it.
