/**
 * The user form of the admin dashboard: the form state set when the dialog
 * opens (a copy of the user's columns in edit mode, a blank patient form in
 * create mode), the role-dependent payload the submit handler assembles, and
 * the write it issues.
 */
module UserForms {
  import opened Wrappers
  import opened DatabaseTypes
  import opened Text
  import opened Payloads

  /** The form state: every field is text except the role and the new-patients flag. */
  datatype UserFormData = UserFormData(
    nom: string,
    prenom: string,
    email: string,
    telephone: string,
    role: UserRole,
    dateNaissance: string,
    adresse: string,
    ville: string,
    codePostal: string,
    specialiteId: string,
    centreMedicalId: string,
    numeroOrdre: string,
    tarifConsultation: string,
    bio: string,
    anneesExperience: string,
    languesParlees: string,
    accepteNouveauxPatients: bool)

  /** The role as the `role` column spells it. */
  function RoleName(r: UserRole): string {
    match r
    case Patient => "patient"
    case Medecin => "medecin"
    case Admin => "admin"
  }

  /** The create-mode state: all text empty, role patient, accepting new patients. */
  const BlankUserForm: UserFormData :=
    UserFormData("", "", "", "", Patient, "", "", "", "", "", "", "", "", "", "", "", true)

  /** `user.langues_parlees?.join(', ') || ''`. */
  function LanguesText(o: Option<seq<string>>): string {
    if o.None? then "" else Join(o.value, ", ")
  }

  /** The state the dialog's effect sets for `user`, or for a new user when there is none. */
  function UserFormFor(user: Option<Utilisateur>): UserFormData {
    match user
    case None => BlankUserForm
    case Some(u) =>
      UserFormData(
        u.nom, u.prenom, u.email, u.telephone, u.role,
        OrEmpty(u.dateNaissance), OrEmpty(u.adresse), OrEmpty(u.ville), OrEmpty(u.codePostal),
        OrEmpty(u.specialiteId), OrEmpty(u.centreMedicalId), OrEmpty(u.numeroOrdre),
        OrEmpty(u.tarifConsultation), OrEmpty(u.bio), OrEmpty(u.anneesExperience),
        LanguesText(u.languesParlees), u.accepteNouveauxPatients)
  }

  /** Each element trimmed. */
  function TrimAll(xs: seq<string>): (r: seq<string>)
    ensures |r| == |xs| && forall i :: 0 <= i < |xs| ==> r[i] == Trim(xs[i])
  {
    seq(|xs|, i requires 0 <= i < |xs| => Trim(xs[i]))
  }

  /** `s ? s.split(',').map(l => l.trim()) : null`. */
  function LanguesValue(s: string): Value {
    if s == "" then Null else TextList(TrimAll(Split(s, ',')))
  }

  /** The columns of `utilisateurs` the form writes. */
  datatype UserColumn =
    | Nom | Prenom | Email | Telephone | Role
    | DateNaissance | Adresse | Ville | CodePostal
    | SpecialiteId | CentreMedicalId | NumeroOrdre | TarifConsultation
    | Bio | AnneesExperience | LanguesParlees | AccepteNouveauxPatients

  /** The payload key of each column. */
  function ColumnName(c: UserColumn): string {
    match c
    case Nom => "nom"
    case Prenom => "prenom"
    case Email => "email"
    case Telephone => "telephone"
    case Role => "role"
    case DateNaissance => "date_naissance"
    case Adresse => "adresse"
    case Ville => "ville"
    case CodePostal => "code_postal"
    case SpecialiteId => "specialite_id"
    case CentreMedicalId => "centre_medical_id"
    case NumeroOrdre => "numero_ordre"
    case TarifConsultation => "tarif_consultation"
    case Bio => "bio"
    case AnneesExperience => "annees_experience"
    case LanguesParlees => "langues_parlees"
    case AccepteNouveauxPatients => "accepte_nouveaux_patients"
  }

  /** Which payloads carry a column. */
  datatype ColumnGroup = Common | PatientOnly | MedecinOnly

  function Group(c: UserColumn): ColumnGroup {
    match c
    case Nom | Prenom | Email | Telephone | Role => Common
    case DateNaissance | Adresse | Ville | CodePostal => PatientOnly
    case SpecialiteId | CentreMedicalId | NumeroOrdre | TarifConsultation
      | Bio | AnneesExperience | LanguesParlees | AccepteNouveauxPatients => MedecinOnly
  }

  /** A payload for role `r` carries the common columns and the columns of that role only. */
  predicate Carries(r: UserRole, c: UserColumn) {
    match Group(c)
    case Common => true
    case PatientOnly => r == Patient
    case MedecinOnly => r == Medecin
  }

  /**
   * The value column `c` takes for form `f`: the common columns as typed;
   * the others with empty text as null, numbers parsed from their text and
   * the languages split on commas and trimmed.
   */
  function FieldValue(f: UserFormData, c: UserColumn): Value {
    match c
    case Nom => Text(f.nom)
    case Prenom => Text(f.prenom)
    case Email => Text(f.email)
    case Telephone => Text(f.telephone)
    case Role => Text(RoleName(f.role))
    case DateNaissance => NullIfEmpty(f.dateNaissance)
    case Adresse => NullIfEmpty(f.adresse)
    case Ville => NullIfEmpty(f.ville)
    case CodePostal => NullIfEmpty(f.codePostal)
    case SpecialiteId => NullIfEmpty(f.specialiteId)
    case CentreMedicalId => NullIfEmpty(f.centreMedicalId)
    case NumeroOrdre => NullIfEmpty(f.numeroOrdre)
    case TarifConsultation => FloatOrNull(f.tarifConsultation)
    case Bio => NullIfEmpty(f.bio)
    case AnneesExperience => IntOrNull(f.anneesExperience)
    case LanguesParlees => LanguesValue(f.languesParlees)
    case AccepteNouveauxPatients => Flag(f.accepteNouveauxPatients)
  }

  /** Column by column, what the payload for form `f` holds, `None` for a column it does not carry. */
  function UserField(f: UserFormData, c: UserColumn): Option<Value> {
    if Carries(f.role, c) then Some(FieldValue(f, c)) else None
  }

  /**
   * The payload object: a field per column, `None` where the object has no
   * such property.
   */
  datatype UserPayload = UserPayload(
    nom: Option<Value>,
    prenom: Option<Value>,
    email: Option<Value>,
    telephone: Option<Value>,
    role: Option<Value>,
    dateNaissance: Option<Value>,
    adresse: Option<Value>,
    ville: Option<Value>,
    codePostal: Option<Value>,
    specialiteId: Option<Value>,
    centreMedicalId: Option<Value>,
    numeroOrdre: Option<Value>,
    tarifConsultation: Option<Value>,
    bio: Option<Value>,
    anneesExperience: Option<Value>,
    languesParlees: Option<Value>,
    accepteNouveauxPatients: Option<Value>)

  /** The object literal `{}` before any column is assigned. */
  const NoColumns: UserPayload := UserPayload(
    None, None, None, None, None, None, None, None, None,
    None, None, None, None, None, None, None, None)

  /** The property of the payload object for column `c`. */
  function Column(p: UserPayload, c: UserColumn): Option<Value> {
    match c
    case Nom => p.nom
    case Prenom => p.prenom
    case Email => p.email
    case Telephone => p.telephone
    case Role => p.role
    case DateNaissance => p.dateNaissance
    case Adresse => p.adresse
    case Ville => p.ville
    case CodePostal => p.codePostal
    case SpecialiteId => p.specialiteId
    case CentreMedicalId => p.centreMedicalId
    case NumeroOrdre => p.numeroOrdre
    case TarifConsultation => p.tarifConsultation
    case Bio => p.bio
    case AnneesExperience => p.anneesExperience
    case LanguesParlees => p.languesParlees
    case AccepteNouveauxPatients => p.accepteNouveauxPatients
  }

  /**
   * The payload `handleSubmit` assembles: the five common columns, then the
   * patient or the practitioner columns assigned onto it according to the
   * role.
   */
  method BuildUserPayload(f: UserFormData) returns (payload: UserPayload)
    ensures forall c :: Column(payload, c) == UserField(f, c)
  {
    payload := NoColumns.(
      nom := Some(Text(f.nom)),
      prenom := Some(Text(f.prenom)),
      email := Some(Text(f.email)),
      telephone := Some(Text(f.telephone)),
      role := Some(Text(RoleName(f.role))));

    if f.role == Patient {
      payload := payload.(dateNaissance := Some(NullIfEmpty(f.dateNaissance)));
      payload := payload.(adresse := Some(NullIfEmpty(f.adresse)));
      payload := payload.(ville := Some(NullIfEmpty(f.ville)));
      payload := payload.(codePostal := Some(NullIfEmpty(f.codePostal)));
    }

    if f.role == Medecin {
      payload := payload.(specialiteId := Some(NullIfEmpty(f.specialiteId)));
      payload := payload.(centreMedicalId := Some(NullIfEmpty(f.centreMedicalId)));
      payload := payload.(numeroOrdre := Some(NullIfEmpty(f.numeroOrdre)));
      payload := payload.(tarifConsultation := Some(FloatOrNull(f.tarifConsultation)));
      payload := payload.(bio := Some(NullIfEmpty(f.bio)));
      payload := payload.(anneesExperience := Some(IntOrNull(f.anneesExperience)));
      payload := payload.(languesParlees := Some(LanguesValue(f.languesParlees)));
      payload := payload.(accepteNouveauxPatients := Some(Flag(f.accepteNouveauxPatients)));
    }
  }

  /** Submission: an update of the edited user's row, or an insert when no user was given; never both. */
  method HandleUserSubmit(user: Option<Utilisateur>, f: UserFormData) returns (m: Mutation<UserPayload>)
    ensures m.table == "utilisateurs"
    ensures m.Update? <==> user.Some?
    ensures m.Update? ==> m.id == user.value.id
    ensures forall c :: Column(m.payload, c) == UserField(f, c)
  {
    var payload := BuildUserPayload(f);
    if user.Some? {
      m := Update("utilisateurs", user.value.id, payload);
    } else {
      m := Insert("utilisateurs", payload);
    }
  }

  /** An administrator's payload carries exactly the five common columns. */
  lemma AdminPayloadColumns(f: UserFormData)
    requires f.role == Admin
    ensures forall c :: UserField(f, c).Some? <==> c in {Nom, Prenom, Email, Telephone, Role}
  {
  }

  /** Empty text is sent as null; other text as the trimmed pieces of its split, which join back to it. */
  lemma LanguesValueMeaning(s: string)
    ensures s == "" ==> LanguesValue(s) == Null
    ensures s != "" ==>
      var pieces := Split(s, ',');
      && LanguesValue(s) == TextList(TrimAll(pieces))
      && Join(pieces, ",") == s
      && (forall i :: 0 <= i < |pieces| ==> ',' !in pieces[i])
  {
    JoinSplit(s, ',');
  }

  /** `", "`-joining is `","`-joining of the list with a space before every element but the first. */
  function Spaced(xs: seq<string>): (r: seq<string>)
    ensures |r| == |xs|
  {
    if xs == [] then [] else [xs[0]] + seq(|xs| - 1, i requires 0 <= i < |xs| - 1 => " " + xs[i + 1])
  }

  lemma {:induction false} JoinSpaced(xs: seq<string>)
    ensures Join(xs, ", ") == Join(Spaced(xs), ",")
  {
    if |xs| >= 2 {
      var ys := xs[1..];
      var r, t := Spaced(xs), Spaced(ys);
      JoinSpaced(ys);
      var u := [" " + t[0]] + t[1..];
      forall i | 0 <= i < |u| ensures r[1..][i] == u[i] {
        if i > 0 {
          assert u[i] == t[i] == " " + ys[i];
        }
      }
      assert r[1..] == u;
      JoinConsSpace(t);
      calc {
        Join(r, ",");
        r[0] + "," + Join(u, ",");
        xs[0] + "," + (" " + Join(t, ","));
        { assert "," + " " == ", "; }
        xs[0] + ", " + Join(ys, ", ");
      }
    }
  }

  /** Putting a space before the first element puts a space before the join. */
  lemma JoinConsSpace(t: seq<string>)
    requires t != []
    ensures Join([" " + t[0]] + t[1..], ",") == " " + Join(t, ",")
  {
    var u := [" " + t[0]] + t[1..];
    if |t| >= 2 {
      assert u[0] == " " + t[0] && u[1..] == t[1..];
      calc {
        Join(u, ",");
        u[0] + "," + Join(u[1..], ",");
        (" " + t[0]) + "," + Join(t[1..], ",");
        " " + (t[0] + "," + Join(t[1..], ","));
      }
    } else {
      assert u == [" " + t[0]];
    }
  }

  lemma SpacedTrimmed(xs: seq<string>)
    requires forall i :: 0 <= i < |xs| ==> Trim(xs[i]) == xs[i]
    ensures TrimAll(Spaced(xs)) == xs
  {
    var r := Spaced(xs);
    var w := " ";
    assert IsWhitespace(w[0]);
    forall i | 0 <= i < |xs| ensures Trim(r[i]) == xs[i] {
      if i > 0 {
        assert r[i] == w + xs[i];
        TrimAfterWhitespace(w, xs[i]);
      }
    }
  }

  /** Length 2 or more joins to a non-empty text, since the separator is in it. */
  lemma JoinEmpty(xs: seq<string>)
    ensures Join(xs, ", ") == "" <==> xs == [] || xs == [""]
  {
    if |xs| >= 2 {
      assert |Join(xs, ", ")| >= 2;
    }
  }

  /**
   * The languages survive an edit unchanged: prefill joins them with `", "`,
   * submission splits on `','` and trims each piece, which gives back every
   * list of trimmed names without commas, except the empty list and the list
   * holding one empty name, which are sent as null.
   */
  lemma LanguesRoundTrip(o: Option<seq<string>>)
    requires o.Some? ==> forall i :: 0 <= i < |o.value| ==> Trim(o.value[i]) == o.value[i] && ',' !in o.value[i]
    ensures o.None? || o.value == [] || o.value == [""] ==> LanguesValue(LanguesText(o)) == Null
    ensures o.Some? && o.value != [] && o.value != [""] ==> LanguesValue(LanguesText(o)) == TextList(o.value)
  {
    if o.Some? {
      var xs := o.value;
      JoinEmpty(xs);
      if xs != [] && xs != [""] {
        JoinSpaced(xs);
        var r := Spaced(xs);
        forall i | 0 <= i < |r| ensures ',' !in r[i] {
          if i > 0 {
            assert r[i] == " " + xs[i];
          }
        }
        SplitJoin(r, ',');
        SpacedTrimmed(xs);
      }
    }
  }

  /**
   * Editing a user and submitting the prefilled form unchanged writes back
   * the user's own common columns and role.
   */
  lemma UserEditCommon(u: Utilisateur)
    ensures var f := UserFormFor(Some(u));
      && f.role == u.role
      && UserField(f, Nom) == Some(Text(u.nom)) && UserField(f, Prenom) == Some(Text(u.prenom))
      && UserField(f, Email) == Some(Text(u.email)) && UserField(f, Telephone) == Some(Text(u.telephone))
      && UserField(f, Role) == Some(Text(RoleName(u.role)))
  {
  }

  /**
   * For a patient, the unchanged prefilled form writes back the patient
   * columns as they were, empty text as null, and no practitioner column.
   */
  lemma UserEditPatient(u: Utilisateur)
    requires u.role == Patient
    ensures var f := UserFormFor(Some(u));
      && UserField(f, DateNaissance) == Some(StoredText(u.dateNaissance))
      && UserField(f, Adresse) == Some(StoredText(u.adresse))
      && UserField(f, Ville) == Some(StoredText(u.ville))
      && UserField(f, CodePostal) == Some(StoredText(u.codePostal))
      && (forall c :: Group(c) == MedecinOnly ==> UserField(f, c) == None)
  {
    PrefillThenSend(u.dateNaissance);
    PrefillThenSend(u.adresse);
    PrefillThenSend(u.ville);
    PrefillThenSend(u.codePostal);
  }

  /**
   * For a practitioner, the unchanged prefilled form writes back the
   * practitioner's text columns as they were, empty text as null, and no
   * patient column.
   */
  lemma UserEditMedecin(u: Utilisateur)
    requires u.role == Medecin
    ensures var f := UserFormFor(Some(u));
      && UserField(f, SpecialiteId) == Some(StoredText(u.specialiteId))
      && UserField(f, CentreMedicalId) == Some(StoredText(u.centreMedicalId))
      && UserField(f, NumeroOrdre) == Some(StoredText(u.numeroOrdre))
      && UserField(f, Bio) == Some(StoredText(u.bio))
      && (forall c :: Group(c) == PatientOnly ==> UserField(f, c) == None)
  {
    PrefillThenSend(u.specialiteId);
    PrefillThenSend(u.centreMedicalId);
    PrefillThenSend(u.numeroOrdre);
    PrefillThenSend(u.bio);
  }

  /**
   * For a practitioner, the numbers are parsed back from the text they were
   * prefilled as, and the new-patients flag is sent as it was.
   */
  lemma UserEditMedecinValues(u: Utilisateur)
    requires u.role == Medecin
    ensures var f := UserFormFor(Some(u));
      && UserField(f, TarifConsultation) == Some(StoredFloat(u.tarifConsultation))
      && UserField(f, AnneesExperience) == Some(StoredInt(u.anneesExperience))
      && UserField(f, AccepteNouveauxPatients) == Some(Flag(u.accepteNouveauxPatients))
  {
  }

  /**
   * For a practitioner whose languages are trimmed names without commas, the
   * unchanged prefilled form sends the same list back, unless it is empty or
   * holds one empty name, which is sent as null.
   */
  lemma UserEditLangues(u: Utilisateur)
    requires u.role == Medecin
    requires u.languesParlees.Some? ==> var xs := u.languesParlees.value;
      forall i :: 0 <= i < |xs| ==> Trim(xs[i]) == xs[i] && ',' !in xs[i]
    ensures var f, o := UserFormFor(Some(u)), u.languesParlees;
      && (o.None? || o.value == [] || o.value == [""] ==> UserField(f, LanguesParlees) == Some(Null))
      && (o.Some? && o.value != [] && o.value != [""] ==> UserField(f, LanguesParlees) == Some(TextList(o.value)))
  {
    LanguesRoundTrip(u.languesParlees);
    assert UserFormFor(Some(u)).languesParlees == LanguesText(u.languesParlees);
  }

  /**
   * Creating a user from the untouched blank form sends a patient with empty
   * common columns and null patient columns.
   */
  lemma BlankUserPayload()
    ensures UserFormFor(None) == BlankUserForm
    ensures BlankUserForm.role == Patient && BlankUserForm.accepteNouveauxPatients
    ensures forall c :: Group(c) == Common && c != Role ==> UserField(BlankUserForm, c) == Some(Text(""))
    ensures UserField(BlankUserForm, Role) == Some(Text("patient"))
    ensures forall c :: Group(c) == PatientOnly ==> UserField(BlankUserForm, c) == Some(Null)
    ensures forall c :: Group(c) == MedecinOnly ==> UserField(BlankUserForm, c) == None
  {
  }
}
