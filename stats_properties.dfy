/**
 * What the dashboard snapshot means: each window count is the number of
 * appointments on today's date, in this Sunday-first week or in this calendar
 * month; the evolution series labels the last seven local dates and counts
 * each one; the counts are bounded by the table totals; the repartition sums
 * to the practitioners with a specialty reference.
 */
module DashboardProperties {
  import opened Wrappers
  import opened DatabaseTypes
  import opened Calendar
  import opened Repartition
  import opened Store
  import opened Stats

  /** A stretch of local time an appointment can be counted in. */
  datatype Period =
    | SameDay(day: int)    // the local date of day `day`
    | SameWeek(day: int)   // the Sunday-first week of day `day`
    | SameMonth(year: int, month: int)  // month `month` (0 to 11) of year `year`

  predicate InPeriod(p: Period, a: RendezVous) {
    var d := Day(a.dateHeure);
    match p
    case SameDay(day) => d == day
    case SameWeek(day) => SundayOf(d) == SundayOf(day)
    case SameMonth(year, month) => YearOf(d) == year && MonthOf(d) == month
  }

  /** Reference count: the appointments of `rs` that fall in period `p`. */
  function CountIn(rs: seq<RendezVous>, p: Period): (n: nat)
    ensures n <= |rs|
    ensures n == 0 <== forall i :: 0 <= i < |rs| ==> !InPeriod(p, rs[i])
  {
    if rs == [] then 0 else (if InPeriod(p, rs[0]) then 1 else 0) + CountIn(rs[1..], p)
  }

  /** A filter that agrees with period `p` on every row selects as many rows as fall in `p`. */
  lemma {:induction false} SelectRdvCount(rs: seq<RendezVous>, f: RdvFilter, p: Period)
    requires forall a :: RdvMatches(f, a) <==> InPeriod(p, a)
    ensures |SelectRdv(rs, f)| == CountIn(rs, p)
  {
    if rs != [] {
      SelectRdvCount(rs[1..], f, p);
    }
  }

  /** Today's window holds exactly the appointments on today's local date. */
  lemma DayWindowIsToday(now: int, a: RendezVous)
    ensures RdvMatches(DayFilter(now), a) <==> InPeriod(SameDay(Day(now)), a)
  {
    DaysWindowExact(a.dateHeure, Day(now), Day(now) + 1);
  }

  /** This week's window holds exactly the appointments whose week starts on the same Sunday. */
  lemma WeekWindowIsWeek(now: int, a: RendezVous)
    ensures RdvMatches(WeekFilter(now), a) <==> InPeriod(SameWeek(Day(now)), a)
  {
    var sunday := SundayOf(Day(now));
    DaysWindowExact(a.dateHeure, sunday, sunday + 7);
    WeekWindowExact(Day(now), Day(a.dateHeure));
  }

  /** The month whose window `new Date(year, month, 1)` builds for day `d`. */
  function WindowMonth(d: int): Period {
    SameMonth(MakeFullYear(YearOf(d)), MonthOf(d))
  }

  /**
   * This month's window holds exactly the appointments in today's month of
   * the year the `Date` constructor makes of today's year: today's own year
   * unless that is 0 to 99.
   */
  lemma MonthWindowIsMonth(now: int, a: RendezVous)
    ensures RdvMatches(MonthFilter(now), a) <==> InPeriod(WindowMonth(Day(now)), a)
    ensures !TwoDigitYear(YearOf(Day(now))) ==>
      (RdvMatches(MonthFilter(now), a) <==> InPeriod(SameMonth(YearOf(Day(now)), MonthOf(Day(now))), a))
  {
    var d, b := Day(now), Day(a.dateHeure);
    var y := MakeFullYear(YearOf(d));
    var lo, hi := MakeDay(y, MonthOf(d), 1), MakeDay(y, MonthOf(d) + 1, 1);
    DaysWindowExact(a.dateHeure, lo, hi);
    MonthWindowExact(y, MonthOf(d), b);
    assert RdvMatches(MonthFilter(now), a) <==> lo <= b < hi;
  }

  /**
   * In a year 0 to 99 no appointment of today is in the month window, which
   * covers the same month 1900 years later.
   */
  lemma MonthWindowTwoDigitYear(now: int, a: RendezVous)
    requires TwoDigitYear(YearOf(Day(now)))
    requires RdvMatches(DayFilter(now), a)
    ensures !RdvMatches(MonthFilter(now), a)
  {
    DayWindowIsToday(now, a);
    MonthWindowIsMonth(now, a);
    assert YearOf(Day(a.dateHeure)) == YearOf(Day(now)) != MakeFullYear(YearOf(Day(now)));
  }

  /**
   * The closed window from 00:00:00.000 to 23:59:59.999 of a day holds exactly
   * the appointments on that day: on whole milliseconds it is the half-open
   * window up to the next midnight.
   */
  lemma EvolutionWindowIsDay(day: int, a: RendezVous)
    ensures RdvMatches(EvolutionFilter(day), a) <==> InPeriod(SameDay(day), a)
  {
    DaysWindowExact(a.dateHeure, day, day + 1);
  }

  /** An appointment of today is also in this week's window, and in this month's outside the years 0 to 99. */
  lemma TodayWithinWeekAndMonth(now: int, a: RendezVous)
    requires RdvMatches(DayFilter(now), a)
    ensures RdvMatches(WeekFilter(now), a)
    ensures !TwoDigitYear(YearOf(Day(now))) ==> RdvMatches(MonthFilter(now), a)
  {
    DayWindowIsToday(now, a);
    WeekWindowIsWeek(now, a);
    MonthWindowIsMonth(now, a);
  }

  /** Each window count that did not fail is the number of appointments on that day, week or month. */
  lemma SnapshotWindows(s: Store, now: int)
    ensures var st, rs, d := Snapshot(s, now), s.rendezVous, Day(now);
      && (RdvToday in s.failing ==> st.rdvToday == 0)
      && (RdvToday !in s.failing ==> st.rdvToday == CountIn(rs, SameDay(d)))
      && (RdvWeek in s.failing ==> st.rdvWeek == 0)
      && (RdvWeek !in s.failing ==> st.rdvWeek == CountIn(rs, SameWeek(d)))
      && (RdvMonth in s.failing ==> st.rdvMonth == 0)
      && (RdvMonth !in s.failing ==> st.rdvMonth == CountIn(rs, WindowMonth(d)))
  {
    var rs, d := s.rendezVous, Day(now);
    forall a | true ensures RdvMatches(DayFilter(now), a) <==> InPeriod(SameDay(d), a) {
      DayWindowIsToday(now, a);
    }
    SelectRdvCount(rs, DayFilter(now), SameDay(d));
    forall a | true ensures RdvMatches(WeekFilter(now), a) <==> InPeriod(SameWeek(d), a) {
      WeekWindowIsWeek(now, a);
    }
    SelectRdvCount(rs, WeekFilter(now), SameWeek(d));
    forall a | true ensures RdvMatches(MonthFilter(now), a) <==> InPeriod(WindowMonth(d), a) {
      MonthWindowIsMonth(now, a);
    }
    SelectRdvCount(rs, MonthFilter(now), WindowMonth(d));
  }

  /**
   * The point for the day `daysAgo` days before `today` is labelled with that
   * day's date; when its query did not fail it counts the appointments on that
   * day, otherwise 0.
   */
  lemma EvolutionPointMeaning(s: Store, today: int, daysAgo: int)
    ensures var p, d := EvolutionPointFor(s, today, daysAgo), DaysBefore(today, daysAgo);
      && DayOfCivil(p.date) == d
      && (EvolutionDay(daysAgo) in s.failing ==> p.count == 0)
      && (EvolutionDay(daysAgo) !in s.failing ==> p.count == CountIn(s.rendezVous, SameDay(d)))
      && p.count <= |s.rendezVous|
  {
    var d := DaysBefore(today, daysAgo);
    CivilDateRoundTrip(d);
    forall a | true ensures RdvMatches(EvolutionFilter(d), a) <==> InPeriod(SameDay(d), a) {
      EvolutionWindowIsDay(d, a);
    }
    SelectRdvCount(s.rendezVous, EvolutionFilter(d), SameDay(d));
  }

  /**
   * The evolution series has seven points, labelled with the dates from six
   * days before `today` up to `today`, in order; a point whose query did not
   * fail counts the appointments on its date, one whose query failed counts 0.
   */
  lemma EvolutionSeries(s: Store, today: int)
    ensures var e := Evolution(s, today);
      && |e| == 7
      && e[6].date == CivilDateOf(today)
      && (forall k :: 0 <= k < 7 ==> DayOfCivil(e[k].date) == DaysBefore(today, 6 - k))
      && (forall k :: 0 <= k < 7 && EvolutionDay(6 - k) in s.failing ==> e[k].count == 0)
      && (forall k :: 0 <= k < 7 && EvolutionDay(6 - k) !in s.failing ==>
            e[k].count == CountIn(s.rendezVous, SameDay(DaysBefore(today, 6 - k))))
      && (forall k :: 0 <= k < 7 ==> e[k].count <= |s.rendezVous|)
  {
    var e := Evolution(s, today);
    forall k | 0 <= k < 7
      ensures DayOfCivil(e[k].date) == DaysBefore(today, 6 - k)
      ensures EvolutionDay(6 - k) in s.failing ==> e[k].count == 0
      ensures EvolutionDay(6 - k) !in s.failing ==>
        e[k].count == CountIn(s.rendezVous, SameDay(DaysBefore(today, 6 - k)))
      ensures e[k].count <= |s.rendezVous|
    {
      EvolutionPointMeaning(s, today, 6 - k);
    }
    assert DaysBefore(today, 0) == today;
  }

  /** The snapshot's series ends with today's local date. */
  lemma SnapshotEvolution(s: Store, now: int)
    ensures var e := Snapshot(s, now).evolutionData;
      && |e| == 7 && e[6].date == LocalDateLabel(now)
      && (forall k :: 0 <= k < 7 ==> DayOfCivil(e[k].date) == Day(now) - 6 + k)
  {
    EvolutionSeries(s, Day(now));
  }

  /** The last evolution point and the day count agree when neither query failed. */
  lemma EvolutionEndsWithToday(s: Store, now: int)
    requires RdvToday !in s.failing && EvolutionDay(0) !in s.failing
    ensures Snapshot(s, now).evolutionData[6].count == Snapshot(s, now).rdvToday
  {
    forall a | true ensures RdvMatches(DayFilter(now), a) <==> RdvMatches(EvolutionFilter(Day(now)), a) {
      DayWindowIsToday(now, a);
      EvolutionWindowIsDay(Day(now), a);
    }
    SelectRdvSame(s.rendezVous, DayFilter(now), EvolutionFilter(Day(now)));
  }

  /**
   * The day count is at most the week count, and outside the years 0 to 99 at
   * most the month count, unless those queries failed.
   */
  lemma WindowsNested(s: Store, now: int)
    ensures var st := Snapshot(s, now);
      && (RdvWeek !in s.failing ==> st.rdvToday <= st.rdvWeek)
      && (RdvMonth !in s.failing && !TwoDigitYear(YearOf(Day(now))) ==> st.rdvToday <= st.rdvMonth)
  {
    forall a | RdvMatches(DayFilter(now), a) ensures RdvMatches(WeekFilter(now), a) {
      TodayWithinWeekAndMonth(now, a);
    }
    SelectRdvMonotone(s.rendezVous, DayFilter(now), WeekFilter(now));
    if !TwoDigitYear(YearOf(Day(now))) {
      forall a | RdvMatches(DayFilter(now), a) ensures RdvMatches(MonthFilter(now), a) {
        TodayWithinWeekAndMonth(now, a);
      }
      SelectRdvMonotone(s.rendezVous, DayFilter(now), MonthFilter(now));
    }
  }

  /**
   * Totals that did not fail are the table sizes and bound the other counts:
   * patients and practitioners together are at most all users; every window
   * count, and confirmed plus cancelled together, at most all appointments.
   */
  lemma CountsWithinTotals(s: Store, now: int)
    ensures var st := Snapshot(s, now);
      && (TotalUsers !in s.failing ==> st.totalUsers == |s.utilisateurs|)
      && (TotalUsers !in s.failing ==> st.totalPatients + st.totalMedecins <= st.totalUsers)
      && (TotalRdv !in s.failing ==> st.totalRdv == |s.rendezVous|)
      && (TotalRdv !in s.failing ==>
            && st.rdvToday <= st.totalRdv && st.rdvWeek <= st.totalRdv && st.rdvMonth <= st.totalRdv
            && st.rdvConfirmes + st.rdvAnnules <= st.totalRdv)
  {
    SelectAllUsers(s.utilisateurs);
    SelectAllRdv(s.rendezVous);
    SelectUsersDisjoint(s.utilisateurs, PatientsFilter, MedecinsFilter);
    SelectRdvDisjoint(s.rendezVous, ConfirmesFilter, AnnulesFilter);
  }

  /**
   * The repartition is empty when the grouping query failed; otherwise its
   * names are distinct, each count is at least 1 and the counts sum to the
   * practitioners with a specialty reference, which are at most all
   * practitioners.
   */
  lemma SnapshotRepartition(s: Store, now: int)
    ensures var st := Snapshot(s, now); var r := st.repartitionSpecialites;
      && (SpecialitesData in s.failing ==> r == [])
      && (SpecialitesData !in s.failing ==>
            && (forall i, j :: 0 <= i < j < |r| ==> r[i].nom != r[j].nom)
            && (forall i :: 0 <= i < |r| ==> r[i].count >= 1)
            && SumCounts(r) == |SelectUsers(s.utilisateurs, MedecinsWithSpecialite)|)
      && (SpecialitesData !in s.failing && TotalMedecins !in s.failing ==> SumCounts(r) <= st.totalMedecins)
  {
    RepartitionOfRows(GroupedRows(s));
    SelectUsersMonotone(s.utilisateurs, MedecinsWithSpecialite, MedecinsFilter);
  }

  /**
   * When the grouping query did not fail, each entry counts the practitioners
   * filed under its name, and a name is listed exactly when at least one
   * practitioner is filed under it.
   */
  lemma SnapshotRepartitionCounts(s: Store, now: int)
    requires SpecialitesData !in s.failing
    ensures var r, us, specs := Snapshot(s, now).repartitionSpecialites, s.utilisateurs, s.specialites;
      && (forall i :: 0 <= i < |r| ==> r[i].count == PractitionersIn(us, specs, r[i].nom) > 0)
      && (forall n :: PractitionersIn(us, specs, n) > 0 ==> exists i :: 0 <= i < |r| && r[i].nom == n)
  {
    var rows, r := GroupedRows(s), Snapshot(s, now).repartitionSpecialites;
    assert r == Entries(Tally(rows));
    RepartitionOfRows(rows);
    GroupedRowsMeaning(s);
    forall n | PractitionersIn(s.utilisateurs, s.specialites, n) > 0
      ensures exists i :: 0 <= i < |r| && r[i].nom == n
    {
      OccurrencesPositive(rows, n);
      var k :| 0 <= k < |rows| && BucketName(rows[k]) == n;
    }
  }

  /** Against an empty platform every count is 0 and the repartition is empty. */
  lemma EmptyStoreSnapshot(now: int)
    ensures var st := Snapshot(Store([], [], [], {}), now);
      && st.totalUsers == 0 && st.totalPatients == 0 && st.totalMedecins == 0
      && st.rdvToday == 0 && st.rdvWeek == 0 && st.rdvMonth == 0
      && st.totalRdv == 0 && st.rdvConfirmes == 0 && st.rdvAnnules == 0
      && |st.evolutionData| == 7 && (forall k :: 0 <= k < 7 ==> st.evolutionData[k].count == 0)
      && st.repartitionSpecialites == []
  {
    EvolutionSeries(Store([], [], [], {}), Day(now));
    assert GroupedRows(Store([], [], [], {})) == [];
  }

  /** A time less than a day before local midnight is on the previous day. */
  lemma DayBeforeMidnight(t: int, u: int)
    requires TimeWithinDay(t) == 0 && t - MsPerDay <= u < t
    ensures Day(u) == Day(t) - 1
  {
    DaysWindowExact(u, Day(t) - 1, Day(t));
  }

  /** A time less than a day after local midnight is on the same day. */
  lemma DayAfterMidnight(t: int, u: int)
    requires TimeWithinDay(t) == 0 && t <= u < t + MsPerDay
    ensures Day(u) == Day(t)
  {
    DaysWindowExact(u, Day(t), Day(t) + 1);
  }

  /** The UTC label is the local label when the UTC instant falls on the same local day. */
  lemma IsoLabelOfSameDay(t: int, utcOffset: int)
    requires Day(t - utcOffset) == Day(t)
    ensures IsoDateLabel(t, utcOffset) == LocalDateLabel(t)
  {
  }

  /** The UTC label is the previous day's date when the UTC instant falls on the previous local day. */
  lemma IsoLabelOfPreviousDay(t: int, utcOffset: int)
    requires Day(t - utcOffset) == Day(t) - 1
    ensures IsoDateLabel(t, utcOffset) == CivilDateOf(Day(t) - 1)
    ensures IsoDateLabel(t, utcOffset) != LocalDateLabel(t)
  {
    CivilDateOfInjective(Day(t) - 1, Day(t));
  }

  /**
   * The label the evolution loop computes, the UTC date of local midnight, is the
   * previous day in a zone ahead of UTC by up to a day, and so differs from
   * the local date the point stands for.
   */
  lemma IsoLabelIsPreviousDay(t: int, utcOffset: int)
    requires TimeWithinDay(t) == 0 && 0 < utcOffset <= MsPerDay
    ensures IsoDateLabel(t, utcOffset) == CivilDateOf(Day(t) - 1)
    ensures IsoDateLabel(t, utcOffset) != LocalDateLabel(t)
  {
    DayBeforeMidnight(t, t - utcOffset);
    IsoLabelOfPreviousDay(t, utcOffset);
  }

  /** In a zone at or behind UTC the label of local midnight is the local date. */
  lemma IsoLabelWestOfUtc(t: int, utcOffset: int)
    requires TimeWithinDay(t) == 0 && -MsPerDay < utcOffset <= 0
    ensures IsoDateLabel(t, utcOffset) == LocalDateLabel(t)
  {
    DayAfterMidnight(t, t - utcOffset);
    IsoLabelOfSameDay(t, utcOffset);
  }
}
