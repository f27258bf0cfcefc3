/**
 * The data store as the statistics code sees it: the three tables as
 * in-memory sequences, and the filters the code chains onto its queries
 * (`.eq`, `.not(... 'is', null)`, `.gte`, `.lt`, `.lte`). A count query
 * answers with the number of matching rows, or with a null count when the
 * query failed; which queries fail is part of the store value.
 */
module Store {
  import opened Wrappers
  import opened DatabaseTypes
  import opened Repartition

  /** Every query that `getDashboardStats` sends. */
  datatype Query =
    | TotalUsers | TotalPatients | TotalMedecins
    | RdvToday | RdvWeek | RdvMonth
    | TotalRdv | RdvConfirmes | RdvAnnules
    | EvolutionDay(daysAgo: int)
    | SpecialitesData

  datatype Store = Store(
    utilisateurs: seq<Utilisateur>,
    rendezVous: seq<RendezVous>,
    specialites: seq<Specialite>,
    failing: set<Query>)

  /** Filters on `utilisateurs`: `.eq('role', r)` and `.not('specialite_id', 'is', null)`. */
  datatype UserFilter = UserFilter(role: Option<UserRole>, specialiteNotNull: bool)

  /** Filters on `rendez_vous`: `.eq('statut', s)`, `.gte`, `.lt` and `.lte` on `date_heure`. */
  datatype RdvFilter = RdvFilter(statut: Option<AppointmentStatus>, gte: Option<int>, lt: Option<int>, lte: Option<int>)

  const AllUsers: UserFilter := UserFilter(None, false)
  const AllRdv: RdvFilter := RdvFilter(None, None, None, None)

  predicate UserMatches(f: UserFilter, u: Utilisateur) {
    && (f.role.Some? ==> u.role == f.role.value)
    && (f.specialiteNotNull ==> u.specialiteId.Some?)
  }

  predicate RdvMatches(f: RdvFilter, a: RendezVous) {
    && (f.statut.Some? ==> a.statut == f.statut.value)
    && (f.gte.Some? ==> a.dateHeure >= f.gte.value)
    && (f.lt.Some? ==> a.dateHeure < f.lt.value)
    && (f.lte.Some? ==> a.dateHeure <= f.lte.value)
  }

  /** The rows a user query selects, in table order. */
  function SelectUsers(us: seq<Utilisateur>, f: UserFilter): (r: seq<Utilisateur>)
    ensures |r| <= |us|
    ensures forall i :: 0 <= i < |r| ==> UserMatches(f, r[i])
  {
    if us == [] then []
    else (if UserMatches(f, us[0]) then [us[0]] else []) + SelectUsers(us[1..], f)
  }

  /** The rows an appointment query selects, in table order. */
  function SelectRdv(rs: seq<RendezVous>, f: RdvFilter): (r: seq<RendezVous>)
    ensures |r| <= |rs|
    ensures forall i :: 0 <= i < |r| ==> RdvMatches(f, r[i])
  {
    if rs == [] then []
    else (if RdvMatches(f, rs[0]) then [rs[0]] else []) + SelectRdv(rs[1..], f)
  }

  /** The answer to a `count: 'exact'` query: null when the query failed. */
  function CountResponse(s: Store, q: Query, n: nat): Option<nat> {
    if q in s.failing then None else Some(n)
  }

  /** `count || 0`. */
  function OrZero(c: Option<nat>): nat {
    match c
    case None => 0
    case Some(n) => n
  }

  /** The count the snapshot reports for query `q` whose rows number `n`. */
  function Reported(s: Store, q: Query, n: nat): (r: nat)
    ensures q in s.failing ==> r == 0
    ensures q !in s.failing ==> r == n
  {
    OrZero(CountResponse(s, q, n))
  }

  /** The one-level join `specialites(nom)`: the name of the first specialty with that id. */
  function SpecialiteNom(specs: seq<Specialite>, id: string): (r: Option<string>)
    ensures r.Some? <==> exists i :: 0 <= i < |specs| && specs[i].id == id
    ensures r.Some? ==> exists i :: 0 <= i < |specs| && specs[i].id == id && specs[i].nom == r.value
  {
    if specs == [] then None
    else if specs[0].id == id then Some(specs[0].nom)
    else
      var r := SpecialiteNom(specs[1..], id);
      assert forall i :: 1 <= i < |specs| ==> specs[i] == specs[1..][i - 1];
      r
  }

  const MedecinsWithSpecialite: UserFilter := UserFilter(Some(Medecin), true)

  /** `select('specialite_id, specialites(nom)').eq('role', 'medecin').not('specialite_id', 'is', null)`. */
  function JoinedRows(us: seq<Utilisateur>, specs: seq<Specialite>): (rows: seq<JoinedRow>)
    requires forall i :: 0 <= i < |us| ==> us[i].specialiteId.Some?
  {
    seq(|us|, i requires 0 <= i < |us| =>
      JoinedRow(us[i].specialiteId.value, SpecialiteNom(specs, us[i].specialiteId.value)))
  }

  function GroupedRows(s: Store): (rows: seq<JoinedRow>)
    ensures |rows| == |SelectUsers(s.utilisateurs, MedecinsWithSpecialite)|
  {
    JoinedRows(SelectUsers(s.utilisateurs, MedecinsWithSpecialite), s.specialites)
  }

  /**
   * Reference count: the practitioners of `us` that reference a specialty and
   * whose joined specialty name files them under name `n`.
   */
  function PractitionersIn(us: seq<Utilisateur>, specs: seq<Specialite>, n: string): nat {
    if us == [] then 0
    else
      var u := us[|us| - 1];
      PractitionersIn(us[..|us| - 1], specs, n)
        + (if u.role == Medecin && u.specialiteId.Some?
              && BucketName(JoinedRow(u.specialiteId.value, SpecialiteNom(specs, u.specialiteId.value))) == n
           then 1 else 0)
  }

  /** With no filter a query selects the whole table. */
  lemma {:induction false} SelectAllUsers(us: seq<Utilisateur>)
    ensures SelectUsers(us, AllUsers) == us
  {
    if us != [] {
      SelectAllUsers(us[1..]);
    }
  }

  lemma {:induction false} SelectAllRdv(rs: seq<RendezVous>)
    ensures SelectRdv(rs, AllRdv) == rs
  {
    if rs != [] {
      SelectAllRdv(rs[1..]);
    }
  }

  /** A filter that lets through no more rows than another selects no more rows. */
  lemma {:induction false} SelectUsersMonotone(us: seq<Utilisateur>, f: UserFilter, g: UserFilter)
    requires forall u :: UserMatches(f, u) ==> UserMatches(g, u)
    ensures |SelectUsers(us, f)| <= |SelectUsers(us, g)|
  {
    if us != [] {
      SelectUsersMonotone(us[1..], f, g);
    }
  }

  lemma {:induction false} SelectRdvMonotone(rs: seq<RendezVous>, f: RdvFilter, g: RdvFilter)
    requires forall a :: RdvMatches(f, a) ==> RdvMatches(g, a)
    ensures |SelectRdv(rs, f)| <= |SelectRdv(rs, g)|
  {
    if rs != [] {
      SelectRdvMonotone(rs[1..], f, g);
    }
  }

  /** Two filters that agree on every row select the same rows. */
  lemma {:induction false} SelectRdvSame(rs: seq<RendezVous>, f: RdvFilter, g: RdvFilter)
    requires forall a :: RdvMatches(f, a) <==> RdvMatches(g, a)
    ensures SelectRdv(rs, f) == SelectRdv(rs, g)
  {
    if rs != [] {
      SelectRdvSame(rs[1..], f, g);
    }
  }

  /** Two filters that no row passes together select at most the whole table between them. */
  lemma {:induction false} SelectUsersDisjoint(us: seq<Utilisateur>, f: UserFilter, g: UserFilter)
    requires forall u :: !(UserMatches(f, u) && UserMatches(g, u))
    ensures |SelectUsers(us, f)| + |SelectUsers(us, g)| <= |us|
  {
    if us != [] {
      SelectUsersDisjoint(us[1..], f, g);
    }
  }

  lemma {:induction false} SelectRdvDisjoint(rs: seq<RendezVous>, f: RdvFilter, g: RdvFilter)
    requires forall a :: !(RdvMatches(f, a) && RdvMatches(g, a))
    ensures |SelectRdv(rs, f)| + |SelectRdv(rs, g)| <= |rs|
  {
    if rs != [] {
      SelectRdvDisjoint(rs[1..], f, g);
    }
  }

  /** A row is selected exactly when it is in the table and passes the filter. */
  lemma {:induction false} SelectUsersExact(us: seq<Utilisateur>, f: UserFilter, u: Utilisateur)
    ensures u in SelectUsers(us, f) <==> u in us && UserMatches(f, u)
  {
    if us != [] {
      SelectUsersExact(us[1..], f, u);
      assert us == [us[0]] + us[1..];
    }
  }

  /** Selecting from a table with one more row at its end adds that row when it matches. */
  lemma {:induction false} SelectUsersSnoc(us: seq<Utilisateur>, f: UserFilter)
    requires us != []
    ensures SelectUsers(us, f) == SelectUsers(us[..|us| - 1], f) + (if UserMatches(f, us[|us| - 1]) then [us[|us| - 1]] else [])
  {
    var init, last := us[..|us| - 1], us[|us| - 1];
    var tail := if UserMatches(f, last) then [last] else [];
    if |us| == 1 {
      assert init == [] && us[1..] == [];
    } else {
      var t := us[1..];
      var head := if UserMatches(f, us[0]) then [us[0]] else [];
      SelectUsersSnoc(t, f);
      assert t[..|t| - 1] == init[1..] && t[|t| - 1] == last;
      assert init[0] == us[0];
      calc {
        SelectUsers(us, f);
        head + SelectUsers(t, f);
        head + (SelectUsers(init[1..], f) + tail);
        (head + SelectUsers(init[1..], f)) + tail;
        SelectUsers(init, f) + tail;
      }
    }
  }

  /** Joining one more user at the end adds that user's row at the end. */
  lemma JoinedRowsSnoc(us: seq<Utilisateur>, u: Utilisateur, specs: seq<Specialite>)
    requires forall i :: 0 <= i < |us| ==> us[i].specialiteId.Some?
    requires u.specialiteId.Some?
    ensures JoinedRows(us + [u], specs)
      == JoinedRows(us, specs) + [JoinedRow(u.specialiteId.value, SpecialiteNom(specs, u.specialiteId.value))]
  {
    var l, r := JoinedRows(us + [u], specs), JoinedRows(us, specs) + [JoinedRow(u.specialiteId.value, SpecialiteNom(specs, u.specialiteId.value))];
    assert |l| == |r|;
    forall i | 0 <= i < |l| ensures l[i] == r[i] {
      if i < |us| {
        assert (us + [u])[i] == us[i];
      }
    }
  }

  /**
   * Each name occurs among the grouped rows as often as there are
   * practitioners with a specialty reference filed under it.
   */
  lemma {:induction false} GroupedOccurrences(us: seq<Utilisateur>, specs: seq<Specialite>, n: string)
    ensures Occurrences(JoinedRows(SelectUsers(us, MedecinsWithSpecialite), specs), n) == PractitionersIn(us, specs, n)
  {
    if us != [] {
      var init, u := us[..|us| - 1], us[|us| - 1];
      GroupedOccurrences(init, specs, n);
      SelectUsersSnoc(us, MedecinsWithSpecialite);
      var before := SelectUsers(init, MedecinsWithSpecialite);
      if UserMatches(MedecinsWithSpecialite, u) {
        JoinedRowsSnoc(before, u, specs);
        var rows := JoinedRows(before + [u], specs);
        assert rows[..|rows| - 1] == JoinedRows(before, specs);
      } else {
        assert SelectUsers(us, MedecinsWithSpecialite) == before;
      }
    }
  }

  /** The grouped rows of a store: every name occurs once per practitioner filed under it. */
  lemma GroupedRowsMeaning(s: Store)
    ensures forall n :: Occurrences(GroupedRows(s), n) == PractitionersIn(s.utilisateurs, s.specialites, n)
  {
    forall n ensures Occurrences(GroupedRows(s), n) == PractitionersIn(s.utilisateurs, s.specialites, n) {
      GroupedOccurrences(s.utilisateurs, s.specialites, n);
    }
  }
}
