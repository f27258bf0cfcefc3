/**
 * The rows of the platform's tables that the dashboard reads or writes, with
 * the columns the modelled code touches. Nullable columns are `Option`s;
 * timestamps are local time values in milliseconds (module Calendar); numeric
 * columns that the forms render with `toString` are carried as that decimal
 * text.
 */
module DatabaseTypes {
  import opened Wrappers

  datatype UserRole = Patient | Medecin | Admin

  datatype AppointmentStatus = EnAttente | Confirme | Annule | Termine | Absent

  /** A row of table `utilisateurs`. */
  datatype Utilisateur = Utilisateur(
    id: string,
    role: UserRole,
    nom: string,
    prenom: string,
    email: string,
    telephone: string,
    dateNaissance: Option<string>,
    adresse: Option<string>,
    ville: Option<string>,
    codePostal: Option<string>,
    specialiteId: Option<string>,
    centreMedicalId: Option<string>,
    numeroOrdre: Option<string>,
    tarifConsultation: Option<string>,
    bio: Option<string>,
    anneesExperience: Option<string>,
    languesParlees: Option<seq<string>>,
    accepteNouveauxPatients: bool
  )

  /** A row of table `rendez_vous`. */
  datatype RendezVous = RendezVous(
    id: string,
    patientUtilisateurId: string,
    medecinUtilisateurId: string,
    dateHeure: int,
    statut: AppointmentStatus
  )

  /** A row of table `specialites`. */
  datatype Specialite = Specialite(id: string, nom: string)

  /** A row of table `centres_medicaux`. */
  datatype CentreMedical = CentreMedical(
    id: string,
    nom: string,
    adresse: string,
    ville: string,
    codePostal: Option<string>,
    telephone: Option<string>,
    email: Option<string>,
    latitude: Option<string>,
    longitude: Option<string>,
    description: Option<string>
  )
}
