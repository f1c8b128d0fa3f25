# Monthly shift-label engine of AutoScheduling, in Dafny

AutoScheduling is a small desktop tool for a clinic: it keeps a roster of
doctors (name, working status, two holiday balances, the date of the next
on-call shift, the rotation interval in days and an optional outpatient
clinic weekday) and, for a chosen year and month, writes a spreadsheet with
one label per doctor per day. This project models the computation behind
that spreadsheet and the roster edits that keep doctor names unique, in the
two variants of the program: `auto_scheduling.py` (rotation and clinic
labels) and the earlier `1-paiban.py` (blank grid).

The label engine of `auto_scheduling.py` builds two header rows (day numbers
1..N and Monday-first weekday names 一..日) and, per doctor, a row of the
name, the two holiday balances and N day cells, filled by four passes over a
row buffer, each running over the days in ascending order:

1. a doctor whose status is not `正常工作` gets the status text on every day;
2. with a next shift date and an interval above 0, Monday to Friday become
   `日` and weekends `休` (otherwise the cells stay blank and no further
   pass runs);
3. a day whose distance from the next shift date is a multiple of the
   interval (floor modulo, so months before that date stay on the cycle)
   becomes `值`, the next day `/`, and a Saturday or Sunday duty marks
   `周六调休` two days later or `周日调休` three days later, when those days
   are in the month; a later write replaces an earlier one;
4. on the doctor's clinic weekday, a fixed table rewrites the cell
   (`日`→`日/门`, `值`→`值/门`, `/`→`加/门`, `休`→`休/门`, either
   compensatory rest→`日/门`, anything else gets `/门` appended).

Modules:

- `Calendar` (calendar.dfy): dates as day ordinals (days since 1970-01-01,
  proleptic Gregorian), Monday-first weekdays, month lengths. It replaces
  `calendar.monthrange` and `pd.Timestamp`.
- `Names` (names.dfy): Python's `str.strip()` on the name entry and the
  unique-name predicate.
- `DoctorRecords` (doctor_records.dfy): the seven-field record and the
  defaults `load_config` gives to missing keys.
- `AutoRoster` (auto_roster.dfy): `add_doctor` / `modify_doctor` of
  `auto_scheduling.py` as a class over the `doctor_data` list.
- `MonthGrid` (month_grid.dfy): table cells and the two header rows shared
  by both variants.
- `ShiftLabels` (shift_labels.dfy): the passes as functions, with the
  lemmas that say which label each day ends up with.
- `AutoSchedule` (auto_schedule.dfy): `generate_schedule` as methods over
  an array row buffer, proved equal to those functions.
- `Paiban` (paiban.dfy): `1-paiban.py`'s roster class and blank-grid
  `generate_schedule`.

Three choices of the code shape the model. Status is free text compared
with `正常工作` (auto_scheduling.py:140), not a three-value enum: any other
text overrides the row. The clinic overlay (auto_scheduling.py:171-186)
sits inside the rotation branch opened at auto_scheduling.py:146, so a
working doctor without a rotation gets blank cells and no clinic marks.
Rotation marks stop at the end of the month (auto_scheduling.py:162-169):
a duty on the last day of the previous month leaves day 1 on its baseline.

The day cells are held in a buffer indexed from 0 for day 1, where the
source writes `row[2 + day]` in a row that already holds the name and the
balances; the row is assembled from the buffer afterwards.

## Model

| member | source | states |
|---|---|---|
| `Calendar.DaysFromCivil` | auto_scheduling.py:159-160 | the day ordinal behind `pd.Timestamp` differences; `DayOffset`, `NextDayAcrossMonth` and `KnownDates` state that it counts days |
| `Calendar.DaysInMonth` | auto_scheduling.py:125 | the month has 28 to 31 days; February has 29 exactly in Gregorian leap years |
| `Calendar.DayOfWeek` | auto_scheduling.py:129 | the Monday-first weekday of a date is an index 0..6 into the weekday names |
| `Calendar.Weekday` | auto_scheduling.py:152 | helper of `DayOfWeek`: the Monday-first weekday 0..6 of a day ordinal, which the baseline and duty loops also test directly at lines 152, 164 and 167; `WeekdaySuccessor` and `KnownDates` pin it |
| `Calendar.DayOffset` | auto_scheduling.py:151 | inside a month, day d lies d - 1 days after day 1, so day ordinals are consecutive |
| `Calendar.NextDayAcrossMonth` | auto_scheduling.py:160 | the ordinal of the first of the next month is one more than that of the last day of this month, across year ends and leap Februaries, so differences of ordinals are true day counts |
| `Calendar.ShiftedYearLength` | auto_scheduling.py:160 | helper of `NextDayAcrossMonth`: a year counted from 1 March has 366 days when the following February is a leap February, 365 otherwise |
| `Calendar.WeekdaySuccessor` | auto_scheduling.py:129 | the weekday of the next day is the weekday plus one modulo 7 |
| `Calendar.KnownDates` | auto_scheduling.py:125-129 | 1970-01-01 is a Thursday, 2024-01-01 a Monday, 2024-01-06 a Saturday; February has 29 days in 2024 and 2000, 28 in 2023 and 1900 |
| `Calendar.NextMonth` | auto_scheduling.py:160 | helper of `NextDayAcrossMonth`: the following month is a valid month exactly one month later |
| `Names.Strip` | auto_scheduling.py:67 | the stripped name is no longer than the entry and neither starts nor ends with a Python whitespace character |
| `Names.TrimStart` | auto_scheduling.py:67 | removes exactly the leading whitespace: the result is a suffix, everything dropped is whitespace, the result does not start with whitespace |
| `Names.TrimEnd` | auto_scheduling.py:67 | removes exactly the trailing whitespace: the result is a prefix, everything dropped is whitespace, the result does not end with whitespace |
| `Names.StripIsInfix` | auto_scheduling.py:67 | the stripped name is the contiguous piece of the entry that starts after its leading whitespace, and every character outside that piece is whitespace |
| `Names.StripEmpty` | auto_scheduling.py:75 | the stripped name is empty exactly when the entry is all whitespace, which the `if name` guard refuses |
| `Names.StripIdempotent` | 1-paiban.py:50 | stripping a stripped name changes nothing |
| `Names.AppendKeepsUnique` | 1-paiban.py:55-61 | appending a name absent from a list of unique names keeps them unique |
| `Names.ReplaceKeepsUnique` | 1-paiban.py:89-95 | overwriting one position with a name no other position holds keeps unique names unique |
| `Names.HeldElsewhere` | 1-paiban.py:90-91 | the scan condition of `modify_doctor`: some record other than the selected one carries the name; `RenameGuardMatchesScan` relates it to the other variant's guard |
| `DoctorRecords.NamesOf` | auto_scheduling.py:75 | the names of the roster, one per record, in roster order |
| `DoctorRecords.WithDefaults` | auto_scheduling.py:40-50 | a present key keeps its value; a missing balance or interval becomes 0, a missing date None, a missing clinic day "" |
| `DoctorRecords.Stored` | auto_scheduling.py:55-57 | the record `save_config` writes, with every key present; `SaveLoadRoundTrip` states that loading it gives the record back |
| `DoctorRecords.LoadDoctors` | auto_scheduling.py:40-51 | every stored record is completed with the defaults, in file order, names unchanged |
| `DoctorRecords.SaveLoadRoundTrip` | auto_scheduling.py:40-57 | loading what `save_config` wrote gives back every record unchanged |
| `DoctorRecords.DefaultsIdempotent` | auto_scheduling.py:40-50 | completing an already completed record changes nothing |
| `AutoRoster.CanAdd` | auto_scheduling.py:75 | the `add_doctor` guard: a non-empty name no record carries; `AddKeepsNamesUnique` states what it preserves |
| `AutoRoster.CanRename` | auto_scheduling.py:106 | the `modify_doctor` guard: a non-empty name that is the selected record's own or nobody's; `RenameGuardMatchesScan` relates it to 1-paiban.py's scan |
| `AutoRoster.AddKeepsNamesUnique` | auto_scheduling.py:75-76 | appending a non-empty name no record carries keeps the roster's names unique |
| `AutoRoster.ModifyKeepsNamesUnique` | auto_scheduling.py:106-107 | replacing the selected record with its own name or a name nobody carries keeps the names unique |
| `AutoRoster.RenameGuardMatchesScan` | auto_scheduling.py:106 | on a roster with unique names, this guard accepts exactly the non-empty names no other record holds, as the scan of 1-paiban.py does |
| `AutoRoster.RenameGuardsDifferOnDuplicates` | auto_scheduling.py:106 | with two records of the same name, keeping that name passes this guard though another record holds it |
| `AutoRoster.Roster.constructor` | auto_scheduling.py:195 | the roster starts as the loaded records |
| `AutoRoster.Roster.AddDoctor` | auto_scheduling.py:66-88 | accepts exactly a non-empty stripped name no record carries; then appends exactly one record at the end, else leaves the roster unchanged; unique names stay unique |
| `AutoRoster.Roster.ModifyDoctor` | auto_scheduling.py:91-119 | no selection is refused; otherwise accepts a non-empty stripped name that is the selected record's own or nobody's, and then replaces only the selected record; a refusal changes nothing; unique names stay unique |
| `MonthGrid.WeekdayName` | auto_scheduling.py:128-129 | the name of a day's weekday is one of the seven names |
| `MonthGrid.DayHeaderRow` | auto_scheduling.py:127-132 | `""`, `公休`, `积休`, then exactly the day numbers 1..N, N the Gregorian month length |
| `MonthGrid.WeekdayHeaderRow` | auto_scheduling.py:128-133 | three blanks, then for each day d the Monday-first name of d's weekday |
| `MonthGrid.WeekdayNamesCycle` | auto_scheduling.py:129 | along the weekday header the names follow each other in week order, continuing into the next month |
| `ShiftLabels.DutyMonth.IsDuty` | auto_scheduling.py:160 | the duty test: the floor-modulo distance from the next shift date is 0; `DutyFromFirstOfMonth` states it for an anchor on the 1st |
| `ShiftLabels.Baseline` | auto_scheduling.py:150-155 | one cell per day; a cell is `日` exactly on Monday to Friday and `休` exactly on Saturday and Sunday |
| `ShiftLabels.DutyStep` | auto_scheduling.py:158-169 | one iteration of the duty loop keeps the row length; its effect is stated by `DutyPassIsLastWrite` |
| `ShiftLabels.DutyPass` | auto_scheduling.py:158-169 | the duty loop after days 1..k keeps the row length; its effect is stated by `DutyPassIsLastWrite` |
| `ShiftLabels.DutyPassIsLastWrite` | auto_scheduling.py:158-169 | running the duty iterations in ascending day order leaves each day with the label of the last iteration that writes it (itself, the day before, a Saturday two days before, a Sunday three days before), or its baseline label when none does |
| `ShiftLabels.DutyPassLabels` | auto_scheduling.py:158-169 | after the duty loop every duty day holds `值` and, from the baseline, no other day does; a non-duty day after a duty day holds `/`; a Saturday duty's day + 2 holds `周六调休` and a Sunday duty's day + 3 `周日调休` unless a later duty write reaches them; a day no write reaches keeps its baseline |
| `ShiftLabels.LastWriteLabels` | auto_scheduling.py:158-169 | the same labels read off the reference definition alone: a duty day is `值`, the day after a duty day `/`, and the Saturday and Sunday compensatory rests two and three days after such a duty, in that precedence |
| `ShiftLabels.LabelsDistinct` | auto_scheduling.py:153-169 | the labels the baseline and duty loop write are different strings |
| `ShiftLabels.DutyPassRotationLabels` | auto_scheduling.py:150-169 | before the clinic overlay every cell of a rotation row is one of `日`, `休`, `值`, `/`, `周六调休`, `周日调休` |
| `ShiftLabels.ClinicRewrite` | auto_scheduling.py:175-186 | the rewrite table of the clinic overlay; `ClinicRewriteMarks` states its results |
| `ShiftLabels.ClinicRewriteMarks` | auto_scheduling.py:175-186 | the rewrite of a cell always ends in `/门`; a rotation label becomes one of `日/门`, `值/门`, `加/门`, `休/门`; only another text gets `/门` appended |
| `ShiftLabels.ClinicPass` | auto_scheduling.py:172-186 | the overlay keeps the row length; its effect is stated by `ClinicPassOnRotation` |
| `ShiftLabels.IsClinicDay` | auto_scheduling.py:174 | helper of `ClinicPass`: the doctor's clinic weekday text equals the Monday-first name of the day's weekday |
| `ShiftLabels.ClinicPassOnRotation` | auto_scheduling.py:172-186 | on a rotation row the overlay changes no day outside the clinic weekday, and on a clinic day it rewrites one of the six rotation labels, so the append fallback of line 186 is never taken |
| `ShiftLabels.HasRotation` | auto_scheduling.py:146 | the rotation test: a next shift date is set and the interval is above 0 |
| `ShiftLabels.RotationOf` | auto_scheduling.py:146-147 | a doctor with a next shift date and a positive interval yields a valid rotation |
| `ShiftLabels.DayCells` | auto_scheduling.py:137-186 | one label per day of the month |
| `ShiftLabels.DayCellsLabels` | auto_scheduling.py:137-186 | a doctor not working has the status text on every day whatever the other fields hold; without a rotation every cell is blank; with one, a cell holds `值` or `值/门` exactly on the duty days and ends in `/门` exactly on the clinic weekday |
| `ShiftLabels.DutyFromFirstOfMonth` | auto_scheduling.py:159-161 | with the next shift date on the 1st of the month, day d is a duty day exactly when the interval divides d - 1 |
| `ShiftLabels.EveryThirdDayFromFirstOfMonth` | auto_scheduling.py:158-163 | anchored on the 1st with interval 3, days 1, 4, 7, ... hold "值" after the duty loop and days 2, 5, 8, ... hold "/" |
| `ShiftLabels.SaturdayDutyOnJanuary6th2024` | auto_scheduling.py:158-166 | a weekly duty from Saturday 2024-01-06 gives `值` on the 6th, `/` on the 7th and `周六调休` on the 8th |
| `AutoSchedule.DoctorRow` | auto_scheduling.py:137 | a doctor's row has 3 + N cells: the name and the two balances unchanged, then the day cells |
| `AutoSchedule.FillStatus` | auto_scheduling.py:140-142 | every day cell becomes the status text |
| `AutoSchedule.FillBaseline` | auto_scheduling.py:150-155 | the buffer becomes the weekday baseline |
| `AutoSchedule.MarkDuty` | auto_scheduling.py:158-169 | the buffer becomes the duty loop's result on its previous contents |
| `AutoSchedule.OverlayClinic` | auto_scheduling.py:171-186 | the buffer becomes the clinic overlay of its previous contents |
| `AutoSchedule.BuildDayCells` | auto_scheduling.py:137-186 | the filled buffer equals the four passes' specification: the status on every day for a doctor not working, all blank without a rotation |
| `AutoSchedule.GenerateSchedule` | auto_scheduling.py:122-187 | the grid is the day-number header, the weekday header, then exactly one row per roster doctor in roster order |
| `Paiban.NamesOf` | 1-paiban.py:56-57 | the names of the roster, one per record, in roster order |
| `Paiban.Roster.constructor` | 1-paiban.py:185 | the roster starts as the loaded records |
| `Paiban.Roster.AddDoctor` | 1-paiban.py:49-69 | an empty stripped name or one already in the roster is refused with its own outcome and leaves the roster unchanged; otherwise exactly one four-field record is appended at the end; unique names stay unique |
| `Paiban.Roster.ModifyDoctor` | 1-paiban.py:77-104 | no selection is refused; an empty name or one held by any other index is refused; otherwise only the selected record is replaced, keeping its own name allowed; a refusal changes nothing; unique names stay unique |
| `Paiban.BlankRow` | 1-paiban.py:170 | a doctor's row is as wide as the header: the name, then blanks; the balances are not copied |
| `Paiban.GenerateSchedule` | 1-paiban.py:150-171 | a year or month of 0 is refused, whatever the other value; otherwise the column header is the day numbers, then the weekday row and one row per doctor in roster order holding the name and then blanks across the full header width |
| `Paiban.FebruaryWidths` | 1-paiban.py:158-164 | the header has 3 + 29 columns for February 2024 and 3 + 28 for February 2023 |

## Left out

- The tkinter window, its widgets, message boxes, the date picker, list-box
  refreshes and the main loop: a refused edit is an `Outcome` value and an
  unchanged roster.
- Reading and writing `config.json` and the file-existence check; only the
  defaulting of missing keys is kept. Records are assumed to carry `name`
  and `status` (a file without them makes the source fail later).
- `load_config` fills missing keys in the parsed dictionaries in place; the
  model builds a new list of records, since the parsed file is discarded
  after loading and no other reference to those dictionaries exists.
- The spreadsheet export through pandas and the success message; the model
  stops at the in-memory grid.
- `int(...)` parsing of the entry boxes and `strftime` date formatting: the
  balances and interval come in as integers and dates as day ordinals. An
  entry that does not parse makes the source raise; that path is not modelled.
- `pd.Timestamp`'s supported date range (years 1677 to 2262) and
  `monthrange`'s own year limits: the calendar here is unbounded.
- A month outside 1..12, which makes `monthrange`
  raise, is excluded by a precondition of the auto_scheduling.py generator;
  1-paiban.py's generator excludes it only when the year is non-zero, since
  a year or month of 0 is refused before `monthrange` is reached.
- The clinic weekday is a free string, as in the source; a value that is
  not a weekday name matches no day.
