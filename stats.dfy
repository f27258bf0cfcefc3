/**
 * `getDashboardStats`: the dashboard's snapshot of platform metrics, computed
 * from the store and the current instant `now` (a local time value). Role
 * counts, the day, week and month windows of appointments, lifetime counts by
 * status, a seven-day evolution series and the repartition of practitioners
 * by specialty. Every count the store answers with null is reported as 0.
 */
module Stats {
  import opened Wrappers
  import opened DatabaseTypes
  import opened Calendar
  import opened LocalDates
  import opened Repartition
  import opened Store

  /** A calendar date as written "YYYY-MM-DD": months 1..12. */
  datatype CivilDate = CivilDate(year: int, month: int, date: int)

  datatype EvolutionPoint = EvolutionPoint(date: CivilDate, count: nat)

  datatype DashboardStats = DashboardStats(
    totalUsers: nat,
    totalPatients: nat,
    totalMedecins: nat,
    rdvToday: nat,
    rdvWeek: nat,
    rdvMonth: nat,
    totalRdv: nat,
    rdvConfirmes: nat,
    rdvAnnules: nat,
    evolutionData: seq<EvolutionPoint>,
    repartitionSpecialites: seq<SpecialiteCount>)

  function CivilDateOf(day: int): CivilDate {
    CivilDate(YearOf(day), MonthOf(day) + 1, DateOf(day))
  }

  /** The day number a written date stands for. */
  function DayOfCivil(c: CivilDate): int {
    MakeDay(c.year, c.month - 1, c.date)
  }

  lemma CivilDateRoundTrip(day: int)
    ensures DayOfCivil(CivilDateOf(day)) == day
  {
    CivilRoundTrip(day);
  }

  /** Different days have different written dates. */
  lemma CivilDateOfInjective(a: int, b: int)
    requires a != b
    ensures CivilDateOf(a) != CivilDateOf(b)
  {
    CivilDateRoundTrip(a);
    CivilDateRoundTrip(b);
  }

  /** The written date of a day given by an in-range year, month and date is that date. */
  lemma CivilDateOfMakeDay(year: int, month: int, date: int)
    requires 0 <= month < 12 && 1 <= date <= DaysInMonth(year, month)
    ensures CivilDateOf(MakeDay(year, month, date)) == CivilDate(year, month + 1, date)
  {
    FieldsOfMakeDay(year, month, date);
  }

  /** The label of an evolution point whose `Date` holds local time `t`: its local calendar date. */
  function LocalDateLabel(t: int): CivilDate {
    CivilDateOf(Day(t))
  }

  /** A time on day `day` is labelled with that day's date. */
  lemma LabelOfDay(t: int, day: int)
    requires Day(t) == day
    ensures LocalDateLabel(t) == CivilDateOf(day)
  {
  }

  /**
   * The label as the evolution loop writes it, `date.toISOString().split('T')[0]`: the
   * calendar date in UTC of local time `t`, in a zone `utcOffset`
   * milliseconds ahead of UTC.
   */
  function IsoDateLabel(t: int, utcOffset: int): CivilDate {
    LocalDateLabel(t - utcOffset)
  }

  const PatientsFilter: UserFilter := UserFilter(Some(Patient), false)
  const MedecinsFilter: UserFilter := UserFilter(Some(Medecin), false)
  const ConfirmesFilter: RdvFilter := RdvFilter(Some(Confirme), None, None, None)
  const AnnulesFilter: RdvFilter := RdvFilter(Some(Annule), None, None, None)

  /** Half-open window `[from, to)` on `date_heure`. */
  function HalfOpen(from: int, to: int): RdvFilter {
    RdvFilter(None, Some(from), Some(to), None)
  }

  /** From local midnight today up to, not including, local midnight tomorrow. */
  function DayFilter(now: int): RdvFilter {
    HalfOpen(Day(now) * MsPerDay, (Day(now) + 1) * MsPerDay)
  }

  /** The seven days from the Sunday on or before today. */
  function WeekFilter(now: int): RdvFilter {
    var sunday := SundayOf(Day(now));
    HalfOpen(sunday * MsPerDay, (sunday + 7) * MsPerDay)
  }

  /**
   * From the first of the current month up to the first of the next, as
   * `new Date(year, month, 1)` builds them: in a year 0 to 99 that is the
   * same month of year 1900 + year.
   */
  function MonthFilter(now: int): RdvFilter {
    var d := Day(now);
    var y := MakeFullYear(YearOf(d));
    HalfOpen(MakeDay(y, MonthOf(d), 1) * MsPerDay, MakeDay(y, MonthOf(d) + 1, 1) * MsPerDay)
  }

  /** The closed window from 00:00:00.000 to 23:59:59.999 of day `day`. */
  function EvolutionFilter(day: int): RdvFilter {
    RdvFilter(None, Some(day * MsPerDay), None, Some(day * MsPerDay + MakeTime(23, 59, 59, 999)))
  }

  /** The day `n` days before day `today`. */
  function DaysBefore(today: int, n: int): int {
    today - n
  }

  /** The evolution point of the day `daysAgo` days before day `today`. */
  function EvolutionPointFor(s: Store, today: int, daysAgo: int): EvolutionPoint {
    EvolutionPoint(
      CivilDateOf(DaysBefore(today, daysAgo)),
      Reported(s, EvolutionDay(daysAgo), |SelectRdv(s.rendezVous, EvolutionFilter(DaysBefore(today, daysAgo)))|))
  }

  /** The seven evolution points, oldest first, of the week ending on day `today`. */
  function Evolution(s: Store, today: int): seq<EvolutionPoint> {
    seq(7, k requires 0 <= k < 7 => EvolutionPointFor(s, today, 6 - k))
  }

  /** What `specialitesData?.forEach` folds: nothing when the grouping query's data is null. */
  function RepartitionOf(s: Store): seq<SpecialiteCount> {
    if SpecialitesData in s.failing then [] else Entries(Tally(GroupedRows(s)))
  }

  /** The snapshot `getDashboardStats` returns for store `s` at instant `now`. */
  function Snapshot(s: Store, now: int): DashboardStats {
    var us, rs := s.utilisateurs, s.rendezVous;
    DashboardStats(
      Reported(s, TotalUsers, |SelectUsers(us, AllUsers)|),
      Reported(s, TotalPatients, |SelectUsers(us, PatientsFilter)|),
      Reported(s, TotalMedecins, |SelectUsers(us, MedecinsFilter)|),
      Reported(s, RdvToday, |SelectRdv(rs, DayFilter(now))|),
      Reported(s, RdvWeek, |SelectRdv(rs, WeekFilter(now))|),
      Reported(s, RdvMonth, |SelectRdv(rs, MonthFilter(now))|),
      Reported(s, TotalRdv, |SelectRdv(rs, AllRdv)|),
      Reported(s, RdvConfirmes, |SelectRdv(rs, ConfirmesFilter)|),
      Reported(s, RdvAnnules, |SelectRdv(rs, AnnulesFilter)|),
      Evolution(s, Day(now)),
      RepartitionOf(s))
  }

  /** Moving a time value by whole days moves its day number by as many. */
  lemma DayShift(t: int, k: int)
    ensures Day(t + k * MsPerDay) == Day(t) + k
  {
    assert t + k * MsPerDay == (Day(t) + k) * MsPerDay + TimeWithinDay(t);
    DayOfMidnightPlus(Day(t) + k, TimeWithinDay(t));
  }

  /** `xs` holds the first `|xs|` evolution points of the week ending on day `today`. */
  predicate EvolutionPrefix(s: Store, today: int, xs: seq<EvolutionPoint>) {
    |xs| <= 7 && xs == Evolution(s, today)[..|xs|]
  }

  /** Extending a prefix of `e` by `e`'s next element gives the next prefix. */
  lemma PrefixAppend<T>(e: seq<T>, xs: seq<T>, p: T)
    requires |xs| < |e| && xs == e[..|xs|] && p == e[|xs|]
    ensures xs + [p] == e[..|xs| + 1]
  {
  }

  /** Appending the point of `i` days ago to the first `6 - i` points gives the next prefix. */
  lemma EvolutionPrefixAppend(s: Store, today: int, xs: seq<EvolutionPoint>, i: int, p: EvolutionPoint)
    requires 0 <= i <= 6 && |xs| == 6 - i && EvolutionPrefix(s, today, xs)
    requires p == EvolutionPointFor(s, today, i)
    ensures EvolutionPrefix(s, today, xs + [p])
    ensures i == 0 ==> xs + [p] == Evolution(s, today)
  {
    var e := Evolution(s, today);
    assert e[6 - i] == EvolutionPointFor(s, today, 6 - (6 - i));
    PrefixAppend(e, xs, p);
  }

  /** The bounds `setHours` gives a `Date` on day `day` make that day's closed window. */
  lemma EvolutionFilterOf(day: int, dayStart: int, dayEnd: int)
    requires dayStart == day * MsPerDay + MakeTime(0, 0, 0, 0)
    requires dayEnd == day * MsPerDay + MakeTime(23, 59, 59, 999)
    ensures RdvFilter(None, Some(dayStart), None, Some(dayEnd)) == EvolutionFilter(day)
  {
  }

  /**
   * One turn of the evolution loop: a `Date` on the day `i` days before day
   * `today`, counted over that day's window, gives the evolution point of
   * `i` days ago.
   */
  lemma EvolutionTurn(s: Store, today: int, i: int, date: int, f: RdvFilter, count: Option<nat>)
    requires Day(date) == DaysBefore(today, i)
    requires f == EvolutionFilter(DaysBefore(today, i))
    requires count == CountResponse(s, EvolutionDay(i), |SelectRdv(s.rendezVous, f)|)
    ensures EvolutionPoint(LocalDateLabel(date), OrZero(count)) == EvolutionPointFor(s, today, i)
  {
    LabelOfDay(date, DaysBefore(today, i));
  }

  /** The evolution loop: one count per day, from six days ago up to today, appended in that order. */
  method CollectEvolution(s: Store, today: LocalDate) returns (evolutionData: seq<EvolutionPoint>)
    ensures evolutionData == Evolution(s, Day(today.time))
  {
    ghost var D := Day(today.time);
    evolutionData := [];
    var i := 6;
    while i >= 0
      invariant -1 <= i <= 6
      invariant |evolutionData| == 6 - i
      invariant EvolutionPrefix(s, D, evolutionData)
      invariant i < 0 ==> evolutionData == Evolution(s, D)
    {
      var date := new LocalDate(today.time);
      date.SetDate(date.GetDate() - i);
      DayShift(today.time, -i);
      ghost var d := DaysBefore(D, i);
      assert Day(date.time) == d;
      var dayStart := new LocalDate(date.time);
      dayStart.SetHours(0, 0, 0, 0);
      var dayEnd := new LocalDate(date.time);
      dayEnd.SetHours(23, 59, 59, 999);
      EvolutionFilterOf(d, dayStart.time, dayEnd.time);
      var count := CountResponse(s, EvolutionDay(i),
        |SelectRdv(s.rendezVous, RdvFilter(None, Some(dayStart.time), None, Some(dayEnd.time)))|);
      var point := EvolutionPoint(LocalDateLabel(date.time), OrZero(count));
      EvolutionTurn(s, D, i, date.time, RdvFilter(None, Some(dayStart.time), None, Some(dayEnd.time)), count);
      EvolutionPrefixAppend(s, D, evolutionData, i, point);
      evolutionData := evolutionData + [point];
      i := i - 1;
    }
  }

  /** Local midnight today and tomorrow bound the day window. */
  lemma DayWindowValues(now: int, start: int, end: int)
    requires start == Day(now) * MsPerDay + MakeTime(0, 0, 0, 0)
    requires end == start + (DateOf(Day(start)) + 1 - DateOf(Day(start))) * MsPerDay
    ensures HalfOpen(start, end) == DayFilter(now)
  {
  }

  /** Going back `getDay()` days from local midnight and then seven days forward bounds the week window. */
  lemma WeekWindowValues(now: int, today: int, start: int, end: int)
    requires today == Day(now) * MsPerDay
    requires start == today + (DateOf(Day(today)) - WeekDay(Day(today)) - DateOf(Day(today))) * MsPerDay
    requires end == start + (DateOf(Day(start)) + 7 - DateOf(Day(start))) * MsPerDay
    ensures HalfOpen(start, end) == WeekFilter(now)
  {
    DayOfMidnightPlus(Day(now), 0);
  }

  /** Local midnight of the first of this month and of the next bound the month window. */
  lemma MonthWindowValues(now: int, year: int, month: int, start: int, end: int)
    requires year == YearOf(Day(now)) && month == MonthOf(Day(now))
    requires start == MakeDate(MakeDay(MakeFullYear(year), month, 1), 0)
    requires end == MakeDate(MakeDay(MakeFullYear(year), month + 1, 1), 0)
    ensures HalfOpen(start, end) == MonthFilter(now)
  {
  }

  /** The whole aggregation, query after query. */
  method GetDashboardStats(s: Store, now: int) returns (stats: DashboardStats)
    ensures stats == Snapshot(s, now)
  {
    var totalUsers := CountResponse(s, TotalUsers, |SelectUsers(s.utilisateurs, AllUsers)|);
    var totalPatients := CountResponse(s, TotalPatients, |SelectUsers(s.utilisateurs, UserFilter(Some(Patient), false))|);
    var totalMedecins := CountResponse(s, TotalMedecins, |SelectUsers(s.utilisateurs, UserFilter(Some(Medecin), false))|);

    var today := new LocalDate(now);
    today.SetHours(0, 0, 0, 0);
    MidnightOf(now, today.time);
    ghost var midnight := today.time;
    var tomorrow := new LocalDate(today.time);
    tomorrow.SetDate(tomorrow.GetDate() + 1);
    DayWindowValues(now, today.time, tomorrow.time);
    var rdvToday := CountResponse(s, RdvToday,
      |SelectRdv(s.rendezVous, RdvFilter(None, Some(today.time), Some(tomorrow.time), None))|);

    var weekStart := new LocalDate(today.time);
    weekStart.SetDate(weekStart.GetDate() - weekStart.GetDay());
    var weekEnd := new LocalDate(weekStart.time);
    weekEnd.SetDate(weekEnd.GetDate() + 7);
    WeekWindowValues(now, midnight, weekStart.time, weekEnd.time);
    var rdvWeek := CountResponse(s, RdvWeek,
      |SelectRdv(s.rendezVous, RdvFilter(None, Some(weekStart.time), Some(weekEnd.time), None))|);

    assert today.time == midnight;
    var year, month := today.GetFullYear(), today.GetMonth();
    var monthStart := new LocalDate.FromFields(year, month, 1);
    var monthEnd := new LocalDate.FromFields(year, month + 1, 1);
    MonthWindowValues(now, year, month, monthStart.time, monthEnd.time);
    var rdvMonth := CountResponse(s, RdvMonth,
      |SelectRdv(s.rendezVous, RdvFilter(None, Some(monthStart.time), Some(monthEnd.time), None))|);

    var totalRdv := CountResponse(s, TotalRdv, |SelectRdv(s.rendezVous, AllRdv)|);
    var rdvConfirmes := CountResponse(s, RdvConfirmes, |SelectRdv(s.rendezVous, RdvFilter(Some(Confirme), None, None, None))|);
    var rdvAnnules := CountResponse(s, RdvAnnules, |SelectRdv(s.rendezVous, RdvFilter(Some(Annule), None, None, None))|);

    var evolutionData := CollectEvolution(s, today);

    var specialitesData: Option<seq<JoinedRow>> := if SpecialitesData in s.failing then None else Some(GroupedRows(s));
    var specialitesCount: Dict := [];
    if specialitesData.Some? {
      specialitesCount := CountBySpecialite(specialitesData.value);
    }
    var repartitionSpecialites := Entries(specialitesCount);

    stats := DashboardStats(
      OrZero(totalUsers), OrZero(totalPatients), OrZero(totalMedecins),
      OrZero(rdvToday), OrZero(rdvWeek), OrZero(rdvMonth),
      OrZero(totalRdv), OrZero(rdvConfirmes), OrZero(rdvAnnules),
      evolutionData, repartitionSpecialites);
  }
}
