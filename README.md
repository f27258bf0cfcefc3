# Admin dashboard core of the MedicoRDV platform, in Dafny

This project models four pieces of the administrators' web dashboard of a
medical-appointment platform whose data lives in a hosted Postgres store:

- **Dashboard statistics** (`getDashboardStats`). The code counts users by role and
  appointments by status. It also counts appointments in today's window, in this
  Sunday-first week and in this calendar month. It builds a seven-day evolution
  series and folds the practitioners into a per-specialty repartition. The store
  is three in-memory tables (`utilisateurs`, `rendez_vous`, `specialites`). Each
  `count: 'exact'` query is the length of a filtered table. The store value also
  records which queries answer with a null count or null data.

  Time is an integer number of milliseconds on the local time scale.
  `Calendar` gives the ECMAScript `Date` algorithms (Day, DayFromYear,
  YearFromTime, MonthFromTime, DateFromTime, WeekDay, MakeDay, MakeDate).
  `LocalDates.LocalDate` is the mutable `Date` object, with `setHours` and
  `setDate`. The evolution loop and the `forEach` fold are methods with loop
  invariants, each proved equal to a specification function (`Evolution`,
  `Tally`). `GetDashboardStats` is proved to return `Snapshot(s, now)`. The
  lemmas then say what that snapshot means.
- **The user form**. This covers the state its dialog opens with (edit
  prefill or create reset), and the role-dependent payload `handleSubmit`
  assembles. That payload is a record with one optional field per column, and
  `None` means "no such property". It also covers the update-or-insert
  choice, and the round trips from a stored row through the form back to the
  payload. The languages are joined with `", "` and come back through
  `split(',')` and `trim`.
- **The medical-centre form**. This covers the same prefill/reset, a nine-column
  payload literal and the update-or-insert choice.
- **The sidebar**. This covers the fixed navigation table, the `isActive` path
  predicate and the links it renders. It includes the proof that at most one
  entry is active for any path.

Files:

| file | module | content |
|---|---|---|
| `wrappers.dfy` | `Wrappers` | `Option` |
| `types.dfy` | `DatabaseTypes` | rows of the tables the code touches |
| `calendar.dfy` | `Calendar` | the local proleptic Gregorian calendar of JavaScript dates |
| `local_date.dfy` | `LocalDates` | the mutable `Date` object |
| `store.dfy` | `Store` | tables, query filters, null counts |
| `repartition.dfy` | `Repartition` | the per-specialty fold over an insertion-ordered dictionary |
| `stats.dfy` | `Stats` | windows, evolution, snapshot, `GetDashboardStats` |
| `stats_properties.dfy` | `DashboardProperties` | what the snapshot's counts mean |
| `text.dfy` | `Text` | `split`, `join`, `trim`, `startsWith` |
| `payload.dfy` | `Payloads` | payload values and the write a form submits |
| `user_form.dfy` | `UserForms` | the user form |
| `centre_form.dfy` | `CentreForms` | the medical-centre form |
| `sidebar.dfy` | `Sidebar` | the navigation sidebar |

Behaviour of the code that the model keeps:

- **Failed queries.** The code never reads `error`. A failed count is `null`
  and is reported as `0`, and failed grouping data gives an empty
  repartition (`Store.Reported`, `Stats.RepartitionOf`).
- **Practitioners with no specialty.** The grouping query keeps only
  practitioners whose `specialite_id` is not null. So "Non spécifié" counts
  only rows whose reference joins to no name, or to an empty one. The
  repartition sums to the practitioners *with* a reference, which is at most
  `totalMedecins` (`DashboardProperties.SnapshotRepartition`). Each entry
  counts the practitioners filed under its name, and a name is listed exactly
  when one is (`DashboardProperties.SnapshotRepartitionCounts`).
- **Week versus day count.** The week starts on Sunday at local midnight, so
  today always lies in the week window, and the day count never exceeds the
  week count when that query succeeds (`DashboardProperties.WindowsNested`).
  This holds on a time scale without daylight-saving shifts; see below.
- **Month window in the years 0 to 99.** `new Date(year, month, 1)` reads a
  year from 0 to 99 as 1900 to 1999. The month window is therefore today's
  month of `MakeFullYear(year)` (`DashboardProperties.MonthWindowIsMonth`).
  Outside those years it is today's own month and contains today. Inside
  them it contains no appointment of today
  (`DashboardProperties.MonthWindowTwoDigitYear`), so the day count bounds
  the month count only outside them.
- **Day windows.** The evolution windows are closed and end at 23:59:59.999.
  The day window is half-open and ends at the next midnight. On whole
  milliseconds they select the same rows
  (`DashboardProperties.EvolutionWindowIsDay`), so the last evolution point
  equals `rdvToday` (`DashboardProperties.EvolutionEndsWithToday`).

## Model

| member | source | states |
|---|---|---|
| `Calendar.DayFromYear` | admin-dashboard/lib/services/stats-service.ts:48 | ECMAScript DayFromYear: the day number of 1 January of a year, by the Gregorian leap rule with floor division |
| `Calendar.YearOf` | admin-dashboard/lib/services/stats-service.ts:48 | `getFullYear`: YearFromTime, the year whose span of days holds the day |
| `Calendar.DateOf` | admin-dashboard/lib/services/stats-service.ts:27 | `getDate`: the day of the month, counted from 1 |
| `Calendar.MakeFullYear` | admin-dashboard/lib/services/stats-service.ts:48-49 | the year `new Date(year, month, 1)` builds in: 1900 + year for a year 0–99, the year itself otherwise |
| `Calendar.MakeDay` | admin-dashboard/lib/services/stats-service.ts:48-49 | ECMAScript MakeDay: the month rolls over into the year by floor division, then 1 January plus the days before the month plus the date minus 1 |
| `Calendar.Day` | admin-dashboard/lib/services/stats-service.ts:25 | ECMAScript Day: the day number of a time value, the milliseconds divided by 86,400,000 rounded down, which `setHours` keeps |
| `Calendar.IsLeapYear` | admin-dashboard/lib/services/stats-service.ts:48 | the Gregorian leap rule: divisible by 4, and not by 100 unless also by 400 |
| `Calendar.DaysInYear` | admin-dashboard/lib/services/stats-service.ts:48 | a year has 366 days when it is a leap year and 365 otherwise |
| `Calendar.DaysBeforeMonth` | admin-dashboard/lib/services/stats-service.ts:48-49 | the days of a year before month `m`, one more from March on in a leap year; month 12 stands for the whole year |
| `Calendar.DayWithinYear` | admin-dashboard/lib/services/stats-service.ts:48-49 | ECMAScript DayWithinYear: the day counted from 1 January of its own year, below that year's length |
| `Calendar.MonthFrom` | admin-dashboard/lib/services/stats-service.ts:48-49 | MonthFromTime as a search upwards from month `m`: the month found is at least `m`, below 12, and its span of days holds the day of the year |
| `Calendar.TwoDigitYear` | admin-dashboard/lib/services/stats-service.ts:48-49 | the years 0 to 99, which the `Date` constructor reads as 1900 to 1999 |
| `Calendar.MakeTime` | admin-dashboard/lib/services/stats-service.ts:80-82 | ECMAScript MakeTime: hours, minutes, seconds and milliseconds as milliseconds into the day, as `setHours(0, 0, 0, 0)` and `setHours(23, 59, 59, 999)` give them |
| `Calendar.MakeDate` | admin-dashboard/lib/services/stats-service.ts:48-49 | ECMAScript MakeDate: the time value of a day number plus a time within the day |
| `Calendar.SetHoursTime` | admin-dashboard/lib/services/stats-service.ts:25 | `setHours(h, m, s, ms)` (also at :80 and :82): the same day at the time of day MakeTime builds |
| `Calendar.SetDateTime` | admin-dashboard/lib/services/stats-service.ts:27 | `setDate(d)` (also at :37, :39 and :78): the same year, month and time of day with the date replaced, rolled over into the next or previous months by MakeDay |
| `Calendar.TimeWithinDay` | admin-dashboard/lib/services/stats-service.ts:25 | the time within the day lies in one day's milliseconds and, with the day number, rebuilds the time value |
| `Calendar.WeekDay` | admin-dashboard/lib/services/stats-service.ts:37 | `getDay` is in 0..6 |
| `Calendar.DaysInMonth` | admin-dashboard/lib/services/stats-service.ts:49 | every month has 28 to 31 days |
| `Calendar.YearFrom` | admin-dashboard/lib/services/stats-service.ts:48 | the year found is the one whose first day is the last not after the day |
| `Calendar.MonthOf` | admin-dashboard/lib/services/stats-service.ts:48 | `getMonth` is in 0..11 |
| `Calendar.YearOfUnique` | admin-dashboard/lib/services/stats-service.ts:48 | a day between the first days of years `y` and `y + 1` has `getFullYear` equal to `y` |
| `Calendar.MonthOfUnique` | admin-dashboard/lib/services/stats-service.ts:48 | a day between the first days of months `m` and `m + 1` of its year has `getMonth` equal to `m` |
| `Calendar.CivilRoundTrip` | admin-dashboard/lib/services/stats-service.ts:26-27 | a day's year, month and date are in range and rebuild the day through MakeDay |
| `Calendar.FieldsOfMakeDay` | admin-dashboard/lib/services/stats-service.ts:48 | an in-range year, month and date come back from the day MakeDay gives |
| `Calendar.NextMonthStart` | admin-dashboard/lib/services/stats-service.ts:49 | the first of month `m + 1` is the month's length after the first of `m`, December rolling into January of the next year |
| `Calendar.SetDateShift` | admin-dashboard/lib/services/stats-service.ts:26-27 | `setDate(d)` moves the time by `d - getDate()` whole days across month and year ends |
| `Calendar.SetHoursKeepsDay` | admin-dashboard/lib/services/stats-service.ts:25 | `setHours` with a time of day in range keeps the day and sets that time |
| `Calendar.DaysWindowExact` | admin-dashboard/lib/services/stats-service.ts:29-33 | a time is in the half-open millisecond window of days `[lo, hi)` exactly when its day is |
| `Calendar.MonthWindowBounds` | admin-dashboard/lib/services/stats-service.ts:48-49 | the month window starts on the first of the month, spans the month's length and contains the day |
| `Calendar.MonthWindowExact` | admin-dashboard/lib/services/stats-service.ts:48-55 | a day lies between the first of month `m` of year `y` and the first of the next month exactly when it has that year and month |
| `Calendar.SundayOf` | admin-dashboard/lib/services/stats-service.ts:37 | the week start is a Sunday on or before the day, less than seven days before it |
| `Calendar.WeekWindowExact` | admin-dashboard/lib/services/stats-service.ts:36-45 | a day is in the seven days from another's Sunday exactly when both have the same Sunday |
| `LocalDates.LocalDate.constructor` | admin-dashboard/lib/services/stats-service.ts:26 | `new Date(d)` copies the time value |
| `LocalDates.LocalDate.FromFields` | admin-dashboard/lib/services/stats-service.ts:48-49 | `new Date(y, m, 1)` is local midnight of that day, months rolling over and a year 0–99 read as 1900–1999 |
| `LocalDates.LocalDate.GetFullYear` | admin-dashboard/lib/services/stats-service.ts:48 | `getFullYear` of the object's time value |
| `LocalDates.LocalDate.GetMonth` | admin-dashboard/lib/services/stats-service.ts:48 | `getMonth` is in 0..11 |
| `LocalDates.LocalDate.GetDate` | admin-dashboard/lib/services/stats-service.ts:27 | `getDate` is in 1..31 |
| `LocalDates.LocalDate.GetDay` | admin-dashboard/lib/services/stats-service.ts:37 | `getDay` is in 0..6 |
| `LocalDates.LocalDate.SetHours` | admin-dashboard/lib/services/stats-service.ts:25 | the new time is the old day at the given time of day |
| `LocalDates.LocalDate.SetDate` | admin-dashboard/lib/services/stats-service.ts:27 | the new time is the old one moved by as many days as the date changes |
| `Store.UserMatches` | admin-dashboard/lib/services/stats-service.ts:11-21 | a user passes `.eq('role', r)` when it has role `r`, and `.not('specialite_id', 'is', null)` when it has a reference |
| `Store.RdvMatches` | admin-dashboard/lib/services/stats-service.ts:29-33 | an appointment passes `.eq('statut')`, `.gte`, `.lt` and `.lte` on `date_heure` when each given bound holds |
| `Store.CountResponse` | admin-dashboard/lib/services/stats-service.ts:114-123 | the `count` a query answers: null when it fails, otherwise the number of selected rows |
| `Store.OrZero` | admin-dashboard/lib/services/stats-service.ts:114-123 | `count \|\| 0`: 0 for a null count, the count otherwise |
| `Store.AllUsers` | admin-dashboard/lib/services/stats-service.ts:7-9 | the query on `utilisateurs` with no filter, as for `totalUsers` |
| `Store.AllRdv` | admin-dashboard/lib/services/stats-service.ts:58-60 | the query on `rendez_vous` with no filter, as for `totalRdv` |
| `Store.MedecinsWithSpecialite` | admin-dashboard/lib/services/stats-service.ts:100-101 | `.eq('role', 'medecin').not('specialite_id', 'is', null)` |
| `Store.JoinedRows` | admin-dashboard/lib/services/stats-service.ts:97-101 | the rows of `select('specialite_id, specialites(nom)')`: one per selected user, in table order, with its reference and joined name |
| `Store.SelectUsers` | admin-dashboard/lib/services/stats-service.ts:7-21 | a user query selects no more rows than the table and only rows passing its filters |
| `Store.SelectRdv` | admin-dashboard/lib/services/stats-service.ts:29-33 | an appointment query selects no more rows than the table and only rows passing its filters |
| `Store.Reported` | admin-dashboard/lib/services/stats-service.ts:114-123 | `count \|\| 0`: a failed query reports 0, any other its row count |
| `Store.SpecialiteNom` | admin-dashboard/lib/services/stats-service.ts:99 | the join finds a name exactly when a specialty with that id exists, and the name is that specialty's |
| `Store.GroupedRows` | admin-dashboard/lib/services/stats-service.ts:97-101 | one joined row per practitioner with a specialty reference |
| `Store.GroupedOccurrences` | admin-dashboard/lib/services/stats-service.ts:97-105 | each bucket name occurs among the joined rows of the selected practitioners as often as there are practitioners with a reference filed under it (`PractitionersIn`) |
| `Store.GroupedRowsMeaning` | admin-dashboard/lib/services/stats-service.ts:97-105 | in a store's grouped rows every name occurs once per practitioner filed under it |
| `Store.SelectAllUsers` | admin-dashboard/lib/services/stats-service.ts:7-9 | with no filter a user query selects the whole table |
| `Store.SelectAllRdv` | admin-dashboard/lib/services/stats-service.ts:58-60 | with no filter an appointment query selects the whole table |
| `Store.SelectUsersMonotone` | admin-dashboard/lib/services/stats-service.ts:97-101 | a stricter user filter selects no more rows |
| `Store.SelectRdvMonotone` | admin-dashboard/lib/services/stats-service.ts:29-55 | a stricter appointment filter selects no more rows |
| `Store.SelectRdvSame` | admin-dashboard/lib/services/stats-service.ts:84-88 | filters that agree on every row select the same rows |
| `Store.SelectUsersDisjoint` | admin-dashboard/lib/services/stats-service.ts:11-21 | two filters no user passes together select at most the table between them |
| `Store.SelectRdvDisjoint` | admin-dashboard/lib/services/stats-service.ts:62-72 | two filters no appointment passes together select at most the table between them |
| `Store.SelectUsersExact` | admin-dashboard/lib/services/stats-service.ts:97-101 | a user is selected exactly when it is in the table and passes the filter |
| `Repartition.Get` | admin-dashboard/lib/services/stats-service.ts:106 | `specialitesCount[nom] \|\| 0`: the value stored under the key, 0 when the key is absent |
| `Repartition.Put` | admin-dashboard/lib/services/stats-service.ts:106 | `specialitesCount[nom] = v`: a present key keeps its place and takes `v`, an absent key is appended with `v` |
| `Repartition.Tally` | admin-dashboard/lib/services/stats-service.ts:103-107 | the `forEach` fold: row by row, in order, the count of the row's bucket name plus one |
| `Repartition.BucketName` | admin-dashboard/lib/services/stats-service.ts:105 | a row counts under its joined name, or under "Non spécifié" when the name is missing or empty |
| `Repartition.NonSpecifie` | admin-dashboard/lib/services/stats-service.ts:105 | the sentinel name `Non spécifié` for a row without a specialty name |
| `Repartition.PutProperties` | admin-dashboard/lib/services/stats-service.ts:106 | after `d[k] = v`: `k` reads `v`, other keys are unchanged, the keys gain `k`, keys stay distinct and the total changes by `v - d[k]` |
| `Repartition.GetAbsent` | admin-dashboard/lib/services/stats-service.ts:106 | `d[k] \|\| 0` is 0 for a missing key |
| `Repartition.TallyCounts` | admin-dashboard/lib/services/stats-service.ts:103-107 | the fold gives distinct keys, each counting exactly its rows and at least 1, keyed by exactly the rows' names, summing to the number of rows |
| `Repartition.CountBySpecialite` | admin-dashboard/lib/services/stats-service.ts:103-107 | the `forEach` loop computes the fold `Tally` |
| `Repartition.Entries` | admin-dashboard/lib/services/stats-service.ts:109-112 | `Object.entries(...).map` lists each entry in insertion order as `{nom, count}` |
| `Repartition.EntriesTotal` | admin-dashboard/lib/services/stats-service.ts:109-112 | the listed counts sum to the dictionary's total |
| `Repartition.RepartitionOfRows` | admin-dashboard/lib/services/stats-service.ts:103-112 | the list has distinct names, every row's name is listed, every count is its rows' number and at least 1, and the counts sum to the rows |
| `Repartition.NamesHasRow` | admin-dashboard/lib/services/stats-service.ts:105 | every row's bucket is among the fold's names |
| `Stats.LocalDateLabel` | admin-dashboard/lib/services/stats-service.ts:91 | the local calendar date of the day a `Date` lies on, the corrected label |
| `Stats.IsoDateLabel` | admin-dashboard/lib/services/stats-service.ts:91 | `toISOString().split('T')[0]`: the UTC calendar date of a local time in a zone `utcOffset` ms ahead of UTC |
| `Stats.CivilDateOf` | admin-dashboard/lib/services/stats-service.ts:91 | the calendar date a label writes for a day: its year, its month counted from 1, and its date |
| `Stats.DayFilter` | admin-dashboard/lib/services/stats-service.ts:24-33 | `.gte(today).lt(tomorrow)`: from local midnight today up to, not including, local midnight tomorrow |
| `Stats.PatientsFilter` | admin-dashboard/lib/services/stats-service.ts:15 | `.eq('role', 'patient')` |
| `Stats.MedecinsFilter` | admin-dashboard/lib/services/stats-service.ts:21 | `.eq('role', 'medecin')` |
| `Stats.ConfirmesFilter` | admin-dashboard/lib/services/stats-service.ts:66 | `.eq('statut', 'confirmé')` |
| `Stats.AnnulesFilter` | admin-dashboard/lib/services/stats-service.ts:72 | `.eq('statut', 'annulé')` |
| `Stats.HalfOpen` | admin-dashboard/lib/services/stats-service.ts:32-33 | `.gte('date_heure', from).lt('date_heure', to)` (also at :44-45 and :54-55): the filter with only those two bounds |
| `Stats.WeekFilter` | admin-dashboard/lib/services/stats-service.ts:36-45 | `.gte(weekStart).lt(weekEnd)`: the seven days from the Sunday on or before today |
| `Stats.MonthFilter` | admin-dashboard/lib/services/stats-service.ts:48-55 | `.gte(monthStart).lt(monthEnd)`: from the first of this month to the first of the next, as `new Date(year, month, 1)` builds them |
| `Stats.EvolutionFilter` | admin-dashboard/lib/services/stats-service.ts:79-88 | `.gte(dayStart).lte(dayEnd)`: the closed window from 00:00:00.000 to 23:59:59.999 of a day |
| `Stats.EvolutionPointFor` | admin-dashboard/lib/services/stats-service.ts:77-93 | the point pushed for `i` days ago: that day's label and its reported count |
| `Stats.DaysBefore` | admin-dashboard/lib/services/stats-service.ts:78 | `date.setDate(date.getDate() - i)` on today: the day `i` days before today |
| `Stats.Evolution` | admin-dashboard/lib/services/stats-service.ts:74-94 | the seven points for `i = 6` down to `0`, oldest first |
| `Stats.RepartitionOf` | admin-dashboard/lib/services/stats-service.ts:96-112 | empty when the grouping data is null, otherwise the entries of the fold over the grouped rows |
| `Stats.Snapshot` | admin-dashboard/lib/services/stats-service.ts:114-126 | the returned object: the nine reported counts, the evolution series and the repartition |
| `Stats.CivilDateRoundTrip` | admin-dashboard/lib/services/stats-service.ts:91 | the written date of a day stands for that day |
| `Stats.CivilDateOfInjective` | admin-dashboard/lib/services/stats-service.ts:91 | different days have different written dates |
| `Stats.CivilDateOfMakeDay` | admin-dashboard/lib/services/stats-service.ts:91 | the written date of an in-range year, month and date is that date, month counted from 1 |
| `Stats.DayShift` | admin-dashboard/lib/services/stats-service.ts:77-78 | moving a time by whole days moves its day number by as many |
| `Stats.EvolutionPrefixAppend` | admin-dashboard/lib/services/stats-service.ts:90-93 | pushing the point of `i` days ago extends the series prefix, and at `i = 0` completes it |
| `Stats.EvolutionTurn` | admin-dashboard/lib/services/stats-service.ts:77-93 | one loop turn produces the evolution point of `i` days ago |
| `Stats.CollectEvolution` | admin-dashboard/lib/services/stats-service.ts:75-94 | the loop returns the seven-point series `Evolution` of today |
| `Stats.DayWindowValues` | admin-dashboard/lib/services/stats-service.ts:24-27 | the midnights of today and tomorrow bound the day window |
| `Stats.WeekWindowValues` | admin-dashboard/lib/services/stats-service.ts:36-39 | going back `getDay()` days, then forward seven, bounds the week window |
| `Stats.MonthWindowValues` | admin-dashboard/lib/services/stats-service.ts:48-49 | `new Date(year, month, 1)` and `new Date(year, month + 1, 1)` bound the month window |
| `Stats.GetDashboardStats` | admin-dashboard/lib/services/stats-service.ts:3-127 | the whole aggregation returns `Snapshot(s, now)` |
| `DashboardProperties.CountIn` | admin-dashboard/lib/services/stats-service.ts:29-33 | the reference count of appointments in a period is at most the table and 0 when none is in it |
| `DashboardProperties.SelectRdvCount` | admin-dashboard/lib/services/stats-service.ts:29-33 | a filter agreeing with a period counts the appointments in it |
| `DashboardProperties.DayWindowIsToday` | admin-dashboard/lib/services/stats-service.ts:24-33 | the half-open day window holds exactly the appointments on today's local date, so none at tomorrow's midnight |
| `DashboardProperties.WeekWindowIsWeek` | admin-dashboard/lib/services/stats-service.ts:36-45 | the week window holds exactly the appointments of today's Sunday-first week |
| `DashboardProperties.MonthWindowIsMonth` | admin-dashboard/lib/services/stats-service.ts:48-55 | the month window holds exactly the appointments of today's month in the year `new Date` makes of today's year, which is today's own year outside 0–99 |
| `DashboardProperties.WindowMonth` | admin-dashboard/lib/services/stats-service.ts:48-49 | the month `new Date(today.getFullYear(), today.getMonth(), 1)` starts: today's month in the year MakeFullYear gives |
| `DashboardProperties.MonthWindowTwoDigitYear` | admin-dashboard/lib/services/stats-service.ts:48-55 | in a year 0–99 no appointment of today is in the month window |
| `DashboardProperties.EvolutionWindowIsDay` | admin-dashboard/lib/services/stats-service.ts:79-88 | the closed 00:00:00.000–23:59:59.999 window holds exactly the appointments on that day |
| `DashboardProperties.TodayWithinWeekAndMonth` | admin-dashboard/lib/services/stats-service.ts:24-55 | the day window lies inside the week window, and inside the month window outside the years 0–99 |
| `DashboardProperties.SnapshotWindows` | admin-dashboard/lib/services/stats-service.ts:23-55 | each window count is 0 when its query failed and otherwise the appointments on today's date, in today's week, or in the month the month window covers |
| `DashboardProperties.EvolutionPointMeaning` | admin-dashboard/lib/services/stats-service.ts:76-93 | the point for `i` days ago is labelled with that date and counts its appointments, or 0 when its query failed |
| `DashboardProperties.EvolutionSeries` | admin-dashboard/lib/services/stats-service.ts:74-94 | seven points for the consecutive days from today−6 to today, oldest first, each counting its day |
| `DashboardProperties.SnapshotEvolution` | admin-dashboard/lib/services/stats-service.ts:74-94 | the snapshot's series has seven points ending with today's local date, days ascending one by one |
| `DashboardProperties.EvolutionEndsWithToday` | admin-dashboard/lib/services/stats-service.ts:84-88 | the last evolution count equals `rdvToday` when neither query failed |
| `DashboardProperties.WindowsNested` | admin-dashboard/lib/services/stats-service.ts:23-55 | `rdvToday` is at most `rdvWeek` when that succeeded, and at most `rdvMonth` when that succeeded outside the years 0–99 |
| `DashboardProperties.CountsWithinTotals` | admin-dashboard/lib/services/stats-service.ts:7-72 | the totals are the table sizes, patients plus practitioners are at most all users, and every appointment count is at most `totalRdv` |
| `DashboardProperties.SnapshotRepartition` | admin-dashboard/lib/services/stats-service.ts:96-112 | the repartition is empty on failure, otherwise has distinct names and positive counts summing to the practitioners with a reference, at most `totalMedecins` |
| `DashboardProperties.SnapshotRepartitionCounts` | admin-dashboard/lib/services/stats-service.ts:96-112 | when the grouping succeeded, each entry's count is the number of practitioners filed under its name, and a name is listed exactly when that number is positive |
| `DashboardProperties.EmptyStoreSnapshot` | admin-dashboard/lib/services/stats-service.ts:114-126 | an empty platform gives all counts 0, seven zero points and no repartition |
| `DashboardProperties.IsoLabelOfSameDay` | admin-dashboard/lib/services/stats-service.ts:91 | the UTC label equals the local label when both instants fall on one local day |
| `DashboardProperties.IsoLabelOfPreviousDay` | admin-dashboard/lib/services/stats-service.ts:91 | the UTC label is the previous date, and not the local one, when the UTC instant falls on the previous day |
| `DashboardProperties.IsoLabelIsPreviousDay` | admin-dashboard/lib/services/stats-service.ts:91 | in a zone ahead of UTC the label of local midnight is yesterday's date |
| `DashboardProperties.IsoLabelWestOfUtc` | admin-dashboard/lib/services/stats-service.ts:91 | in a zone at or behind UTC the label of local midnight is the local date |
| `Text.Split` | admin-dashboard/components/admin/UserForm.tsx:138 | `split` gives at least one piece and no piece holds the separator |
| `Text.Join` | admin-dashboard/components/admin/UserForm.tsx:73 | `Array.prototype.join`: the elements with the separator between consecutive ones, empty text for no element |
| `Text.IsWhitespace` | admin-dashboard/components/admin/UserForm.tsx:138 | the characters `trim` removes: the ECMAScript WhiteSpace and LineTerminator code points |
| `Text.TrimStart` | admin-dashboard/components/admin/UserForm.tsx:138 | the first half of `trim`: the leading whitespace dropped |
| `Text.TrimEnd` | admin-dashboard/components/admin/UserForm.tsx:138 | the second half of `trim`: the trailing whitespace dropped |
| `Text.Trim` | admin-dashboard/components/admin/UserForm.tsx:138 | `String.prototype.trim`: the whitespace at both ends dropped |
| `Text.StartsWith` | admin-dashboard/components/layout/Sidebar.tsx:36 | `startsWith`: the prefix is no longer than the text and equals its first characters |
| `Text.TrimStartCuts` | admin-dashboard/components/admin/UserForm.tsx:138 | dropping leading whitespace keeps a suffix, cuts only whitespace and leaves no leading whitespace |
| `Text.TrimEndCuts` | admin-dashboard/components/admin/UserForm.tsx:138 | dropping trailing whitespace keeps a prefix, cuts only whitespace and leaves no trailing whitespace |
| `Text.TrimCutsWhitespace` | admin-dashboard/components/admin/UserForm.tsx:138 | `trim` gives a piece of the string, everything cut on both sides is whitespace, and the piece has no whitespace at its ends |
| `Text.TrimOfTrimmed` | admin-dashboard/components/admin/UserForm.tsx:138 | a string without whitespace at its ends is its own trim |
| `Text.TrimAfterWhitespace` | admin-dashboard/components/admin/UserForm.tsx:138 | leading whitespace does not change the trim |
| `Text.JoinSplit` | admin-dashboard/components/admin/UserForm.tsx:138 | joining the pieces of a split with the separator gives the string back |
| `Text.SplitPrefix` | admin-dashboard/components/admin/UserForm.tsx:138 | a separator-free front only extends the first piece of a split |
| `Text.SplitJoin` | admin-dashboard/components/admin/UserForm.tsx:138 | splitting a join gives the list back when no element holds the separator |
| `Payloads.NullIfEmpty` | admin-dashboard/components/admin/UserForm.tsx:125-128 | `s \|\| null` is null exactly when `s` is empty, and `s` otherwise |
| `Payloads.FloatOrNull` | admin-dashboard/components/admin/UserForm.tsx:135 | `s ? parseFloat(s) : null` is null exactly when `s` is empty, and parses `s` otherwise |
| `Payloads.IntOrNull` | admin-dashboard/components/admin/UserForm.tsx:137 | `s ? parseInt(s) : null` is null exactly when `s` is empty, and parses `s` otherwise |
| `Payloads.OrEmpty` | admin-dashboard/components/admin/UserForm.tsx:63-72 | `x \|\| ''` prefills a null column as empty text and any other as itself |
| `Payloads.StoredText` | admin-dashboard/components/admin/UserForm.tsx:63-66 | a stored text column is written back as null exactly when it was null or empty |
| `Payloads.StoredFloat` | admin-dashboard/components/admin/UserForm.tsx:70 | a stored number column is written back as null exactly when it was null or empty text |
| `Payloads.StoredInt` | admin-dashboard/components/admin/UserForm.tsx:72 | a stored integer column is written back as null exactly when it was null or empty text |
| `Payloads.PrefillThenSend` | admin-dashboard/components/admin/UserForm.tsx:63-66 | prefilling a nullable text column and sending it back gives the stored value, empty text as null |
| `UserForms.BlankUserForm` | admin-dashboard/components/admin/UserForm.tsx:76-95 | the create-mode state: empty text, role patient, accepting new patients |
| `UserForms.RoleName` | admin-dashboard/components/admin/UserForm.tsx:121 | the text the `role` column holds: `patient`, `medecin` or `admin` |
| `UserForms.LanguesText` | admin-dashboard/components/admin/UserForm.tsx:73 | `langues_parlees?.join(', ') \|\| ''` |
| `UserForms.UserFormFor` | admin-dashboard/components/admin/UserForm.tsx:55-97 | the state the effect sets: the user's columns with null as empty text, or the blank state when there is no user |
| `UserForms.LanguesValue` | admin-dashboard/components/admin/UserForm.tsx:138 | `s ? s.split(',').map(l => l.trim()) : null` |
| `UserForms.UserField` | admin-dashboard/components/admin/UserForm.tsx:116-140 | column by column, the value the payload carries, or no property when the role does not carry that column |
| `UserForms.ColumnName` | admin-dashboard/components/admin/UserForm.tsx:116-139 | the payload key of each of the seventeen columns |
| `UserForms.Group` | admin-dashboard/components/admin/UserForm.tsx:124-140 | the five common columns, the four of the patient branch and the eight of the practitioner branch |
| `UserForms.Carries` | admin-dashboard/components/admin/UserForm.tsx:124-140 | a payload for a role has the common columns and the columns of that role's branch only |
| `UserForms.FieldValue` | admin-dashboard/components/admin/UserForm.tsx:116-139 | the value each column gets: common columns as typed, other text `|| null`, the `parseFloat`/`parseInt` guards, the split and trimmed languages, the flag as it is |
| `UserForms.NoColumns` | admin-dashboard/components/admin/UserForm.tsx:116 | a payload object with none of the columns set |
| `UserForms.Column` | admin-dashboard/components/admin/UserForm.tsx:116-140 | the payload property of a column, absent when the object does not have it |
| `UserForms.TrimAll` | admin-dashboard/components/admin/UserForm.tsx:138 | `.map(l => l.trim())` keeps the length and trims each element in place |
| `UserForms.BuildUserPayload` | admin-dashboard/components/admin/UserForm.tsx:116-140 | the payload has the five common columns as typed, the patient columns only for a patient, the practitioner columns only for a practitioner, each with its null-if-empty, parsed or split value |
| `UserForms.HandleUserSubmit` | admin-dashboard/components/admin/UserForm.tsx:111-151 | an update of table `utilisateurs` by the user's id exactly when a user was given, else an insert, carrying that payload |
| `UserForms.AdminPayloadColumns` | admin-dashboard/components/admin/UserForm.tsx:116-140 | an administrator's payload has exactly the five common columns |
| `UserForms.LanguesValueMeaning` | admin-dashboard/components/admin/UserForm.tsx:138 | empty languages are null; other text is sent as its trimmed comma-free pieces, which join back to it |
| `UserForms.Spaced` | admin-dashboard/components/admin/UserForm.tsx:73 | putting a space before each element after the first keeps the length |
| `UserForms.JoinSpaced` | admin-dashboard/components/admin/UserForm.tsx:73 | `join(', ')` is `join(',')` of the list with those spaces |
| `UserForms.SpacedTrimmed` | admin-dashboard/components/admin/UserForm.tsx:138 | trimming the spaced pieces of trimmed names gives the names back |
| `UserForms.LanguesRoundTrip` | admin-dashboard/components/admin/UserForm.tsx:73 | prefill then submit gives back a list of trimmed comma-free names, except that the empty list and `[""]` become null |
| `UserForms.UserEditCommon` | admin-dashboard/components/admin/UserForm.tsx:57-62 | editing a user sends back the role and the common columns as stored |
| `UserForms.UserEditPatient` | admin-dashboard/components/admin/UserForm.tsx:124-129 | editing a patient sends back the patient columns as stored, empty as null, and no practitioner column |
| `UserForms.UserEditMedecin` | admin-dashboard/components/admin/UserForm.tsx:131-136 | editing a practitioner sends back the text columns as stored, empty as null, and no patient column |
| `UserForms.UserEditMedecinValues` | admin-dashboard/components/admin/UserForm.tsx:135-139 | editing a practitioner sends the fee and experience parsed from their stored text, and the new-patients flag unchanged |
| `UserForms.UserEditLangues` | admin-dashboard/components/admin/UserForm.tsx:138 | editing a practitioner sends back their languages, or null for none |
| `UserForms.BlankUserPayload` | admin-dashboard/components/admin/UserForm.tsx:76-95 | the create-mode form is a patient with empty fields who accepts new patients, and its payload has empty common columns and null patient columns |
| `CentreForms.BlankCentreForm` | admin-dashboard/components/admin/CentreForm.tsx:57-68 | the create-mode state: every field empty |
| `CentreForms.CentreFormFor` | admin-dashboard/components/admin/CentreForm.tsx:44-70 | the state the effect sets: the centre's columns with null as empty text and coordinates as their text, or the blank state when there is no centre |
| `CentreForms.BuildCentrePayload` | admin-dashboard/components/admin/CentreForm.tsx:77-87 | the payload literal: name, address and city as typed, the other text columns null if empty, the coordinates parsed or null |
| `CentreForms.HandleCentreSubmit` | admin-dashboard/components/admin/CentreForm.tsx:89-98 | an update of table `centres_medicaux` by the centre's id exactly when a centre was given, else an insert, carrying the built payload |
| `CentreForms.CentrePayloadColumns` | admin-dashboard/components/admin/CentreForm.tsx:77-87 | name, address and city are sent as typed and never null; the other text columns are null exactly when empty; the coordinates are null exactly when empty and parsed otherwise |
| `CentreForms.CentreEditRoundTrip` | admin-dashboard/components/admin/CentreForm.tsx:44-56 | editing a centre sends back its columns as stored, empty text as null |
| `CentreForms.BlankCentrePayload` | admin-dashboard/components/admin/CentreForm.tsx:57-68 | the create-mode form is all empty, and sends empty name, address and city and null elsewhere |
| `Sidebar.Navigation` | admin-dashboard/components/layout/Sidebar.tsx:16-24 | the seven entries, names and targets in order |
| `Sidebar.IsActive` | admin-dashboard/components/layout/Sidebar.tsx:36 | `pathname === href \|\| pathname?.startsWith(href + '/')`, false for a missing path |
| `Sidebar.RenderNav` | admin-dashboard/components/layout/Sidebar.tsx:35-51 | one link per table entry, in table order, with its name and target, highlighted exactly when `isActive` holds |
| `Sidebar.SingleSegmentNotNested` | admin-dashboard/components/layout/Sidebar.tsx:16-24 | a one-segment path lies below no other non-empty path |
| `Sidebar.NavigationSingleSegments` | admin-dashboard/components/layout/Sidebar.tsx:16-24 | every target in the table is a one-segment path |
| `Sidebar.NavigationDistinct` | admin-dashboard/components/layout/Sidebar.tsx:16-24 | the table has seven entries with distinct targets |
| `Sidebar.NavigationWellFormed` | admin-dashboard/components/layout/Sidebar.tsx:16-24 | seven entries, distinct targets, none below another |
| `Sidebar.AtMostOneActiveIn` | admin-dashboard/components/layout/Sidebar.tsx:36 | in any table with distinct, non-nested targets, no path activates two entries |
| `Sidebar.AtMostOneActive` | admin-dashboard/components/layout/Sidebar.tsx:16-36 | for any path at most one sidebar entry is active |
| `Sidebar.ActiveExamples` | admin-dashboard/components/layout/Sidebar.tsx:36 | `/dashboard` and `/dashboard/x` activate `/dashboard`; `/dashboardx` does not; a missing path activates nothing |

Proof steps without a row of their own: `Calendar.MidnightOf`,
`Calendar.InMonthWindow`, `Calendar.DaysBeforeMonthStep`,
`Calendar.DaysBeforeMonthMonotone`, `Calendar.FloorDivStep`,
`Calendar.DayFromYearStep`, `Calendar.DayFromYearMonotone`,
`Calendar.MakeDayInRange`, `Calendar.DayOfMidnightPlus`,
`Store.SelectUsersSnoc`, `Store.JoinedRowsSnoc`,
`Repartition.GetOfDistinct`, `Repartition.KeysIndexed`,
`Repartition.DistinctIndexed`, `Repartition.PositiveIndexed`,
`Repartition.OccurrencesPositive`, `Stats.LabelOfDay`, `Stats.PrefixAppend`,
`Stats.EvolutionFilterOf`, `DashboardProperties.DayBeforeMidnight`,
`DashboardProperties.DayAfterMidnight`, `UserForms.JoinConsSpace`,
`UserForms.JoinEmpty`, `Sidebar.SlashAfterPrefix`, `Sidebar.PrefixesAlign` and
`Sidebar.BelowOrEqual`.

The ECMAScript time constants `Calendar.MsPerSecond`, `Calendar.MsPerMinute`,
`Calendar.MsPerHour` and `Calendar.MsPerDay` have no row either.

Reference definitions the properties are stated with, which model no line of
the code themselves: `Store.PractitionersIn` (the practitioners filed under a
name, counted over the user table), `Repartition.Occurrences`,
`Repartition.Names`, `Repartition.Keys`, `Repartition.DistinctKeys`,
`Repartition.AllPositive`, `Repartition.Total`, `Repartition.SumCounts`,
`Stats.DayOfCivil` (the day a written date stands for), `Stats.EvolutionPrefix`
(the invariant of the evolution loop), `DashboardProperties.InPeriod` (an
appointment's day, week or month), `Sidebar.DistinctHrefs`,
`Sidebar.NoNestedHrefs` and `Sidebar.SingleSegment`.

## Left out

- The store client. Every `await supabase…` call is replaced by a filter and a count over in-memory tables. Its transport, its timeouts and the `error` field the code never reads are not modelled. Only "null count" and "null data" failures are, as the set `failing`.
- Writes of the forms. `.update(payload).eq('id', …)` and `.insert(payload)` become the `Mutation` value the handler issues. What the store does with it is not modelled, and neither are the `try`/`catch` with its `alert`, `onSuccess`, `onOpenChange(false)` and `router.refresh()`.
- Time zone and daylight saving. Times are on one local scale with no UTC offset and days of exactly 86,400,000 ms. So `toISOString()` is modelled only as the shift by a fixed offset in `Stats.IsoDateLabel`, and nothing here covers a day of 23 or 25 hours.
- The `Date` value range (±8.64e15 ms) and the NaN time value are not modelled. Calendar arithmetic is on unbounded integers.
- `parseFloat` and `parseInt`. They stay uninterpreted (`ParsedFloat(text)`, `ParsedInt(text)`): only their null-if-empty guard is modelled, not the number they produce. The numeric columns (`tarif_consultation`, `annees_experience`, `latitude`, `longitude`) are carried as the decimal text `toString` gives them.
- Key order of the payload objects. The user payload is a record with an optional field per column, and the centre payload a record of nine columns. JavaScript's own property order of those objects is not modelled.
- React. Neither the rendering nor `useState`, nor when the `[user, open]` / `[centre, open]` effects run, is modelled. The effects become the functions `UserFormFor` and `CentreFormFor` from the prop to the state they set. The second effect of the user form, `loadData`, which fills the specialty and centre pickers, is not modelled. Icons and CSS classes of the sidebar are not modelled.
- Concurrency. The statistics queries are awaited one after another, and the model runs them in that order.
- `Text.IsWhitespace` covers the ECMAScript WhiteSpace and LineTerminator code points for `trim`, but a `string` here is a sequence of Unicode scalar values, not of UTF-16 code units.
- Repartition.Entries: the repartition keeps insertion order, as `Object.entries` lists string keys that are not array indices. A specialty named like an integer (`"42"`) would be listed first by JavaScript, in ascending numeric order, and the model does not capture that.
- Stats.CivilDateOf: an evolution label is the record `CivilDate(year, month, date)`, not the zero-padded text `YYYY-MM-DD` that `toISOString().split('T')[0]` gives, and the six-digit signed years `toISOString` writes outside 0–9999 are not modelled either. Different days still get different labels (`Stats.CivilDateOfInjective`).
- DashboardProperties.EvolutionWindowIsDay and DashboardProperties.EvolutionEndsWithToday: `date_heure` is a whole number of milliseconds here. A `timestamptz` holds microseconds, so a row at 23:59:59.9995 is in `rdvToday` but in no evolution point, and these two lemmas do not hold for such rows.
- Repartition.Get, Repartition.Put and Repartition.Tally: the dictionary `specialitesCount` is modelled with no keys of its own. The code's `{}` inherits `Object.prototype`. For a specialty named like an inherited property (`constructor`, `toString`, `valueOf`, `hasOwnProperty`, `isPrototypeOf`, `propertyIsEnumerable`, `toLocaleString`, `__defineGetter__`, `__defineSetter__`, `__lookupGetter__`, `__lookupSetter__`), `specialitesCount[nom] || 0` reads the inherited function. The count then becomes that function's text with `1` appended, not a number. For `__proto__` the assignment replaces the prototype and adds no entry. The model counts these names like any other.
- Repartition.PutProperties and Repartition.GetAbsent: for the inherited property names listed under `Repartition.Get`, they do not describe the code's object.
- Repartition.CountBySpecialite and Repartition.TallyCounts: for rows filed under an inherited property name listed under `Repartition.Get`, they do not describe the code's counts.

## Findings

| source | as written | input that shows it | evidently intended | confidence | as-written member | corrected member |
|---|---|---|---|---|---|---|
| admin-dashboard/lib/services/stats-service.ts:91 | each evolution point is labelled `date.toISOString().split('T')[0]`, the UTC calendar date of the local `Date` | a server in a zone ahead of UTC, e.g. UTC+1: today's point covers local 10 March 00:00–23:59:59.999, but its `Date` holds local midnight, which is 9 March 23:00 UTC, so it is labelled 9 March; every label is one day early | the label is the local date of the day whose appointments the point counts | medium (only on hosts ahead of UTC); not executed | `Stats.IsoDateLabel`, with `DashboardProperties.IsoLabelIsPreviousDay` | `Stats.LocalDateLabel`, used by `Stats.CollectEvolution`, with `DashboardProperties.SnapshotEvolution` |
