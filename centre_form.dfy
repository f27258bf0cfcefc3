/**
 * The medical-centre form of the admin dashboard: the form state set when the
 * dialog opens, the payload object the submit handler builds from it, and
 * the write it issues.
 */
module CentreForms {
  import opened Wrappers
  import opened DatabaseTypes
  import opened Payloads

  /** The form state: every field is text. */
  datatype CentreFormData = CentreFormData(
    nom: string,
    adresse: string,
    ville: string,
    codePostal: string,
    telephone: string,
    email: string,
    latitude: string,
    longitude: string,
    description: string)

  /** The create-mode state: every field empty. */
  const BlankCentreForm: CentreFormData := CentreFormData("", "", "", "", "", "", "", "", "")

  /** The state the dialog's effect sets for `centre`, or for a new centre when there is none. */
  function CentreFormFor(centre: Option<CentreMedical>): CentreFormData {
    match centre
    case None => BlankCentreForm
    case Some(c) =>
      CentreFormData(
        c.nom, c.adresse, c.ville,
        OrEmpty(c.codePostal), OrEmpty(c.telephone), OrEmpty(c.email),
        OrEmpty(c.latitude), OrEmpty(c.longitude), OrEmpty(c.description))
  }

  /** The payload object literal: the nine columns, each always present. */
  datatype CentrePayload = CentrePayload(
    nom: Value,
    adresse: Value,
    ville: Value,
    codePostal: Value,
    telephone: Value,
    email: Value,
    latitude: Value,
    longitude: Value,
    description: Value)

  /**
   * The payload `handleSubmit` builds: name, address and city as typed, the
   * other text columns with empty text as null, the coordinates parsed from
   * their text or null when it is empty.
   */
  function BuildCentrePayload(f: CentreFormData): CentrePayload {
    CentrePayload(
      Text(f.nom), Text(f.adresse), Text(f.ville),
      NullIfEmpty(f.codePostal), NullIfEmpty(f.telephone), NullIfEmpty(f.email),
      FloatOrNull(f.latitude), FloatOrNull(f.longitude),
      NullIfEmpty(f.description))
  }

  /** Submission: an update of the edited centre's row, or an insert when no centre was given; never both. */
  function HandleCentreSubmit(centre: Option<CentreMedical>, f: CentreFormData): (m: Mutation<CentrePayload>)
    ensures m.table == "centres_medicaux"
    ensures m.Update? <==> centre.Some?
    ensures m.Update? ==> m.id == centre.value.id
    ensures m.payload == BuildCentrePayload(f)
  {
    if centre.Some? then Update("centres_medicaux", centre.value.id, BuildCentrePayload(f))
    else Insert("centres_medicaux", BuildCentrePayload(f))
  }

  /**
   * Name, address and city are sent as typed and never as null; the other
   * text columns are null exactly when empty; each coordinate is null exactly
   * when its text is empty and is otherwise parsed from it.
   */
  lemma CentrePayloadColumns(f: CentreFormData)
    ensures var p := BuildCentrePayload(f);
      && p.nom == Text(f.nom) && p.adresse == Text(f.adresse) && p.ville == Text(f.ville)
      && p.nom != Null && p.adresse != Null && p.ville != Null
      && (p.codePostal == Null <==> f.codePostal == "") && (f.codePostal != "" ==> p.codePostal == Text(f.codePostal))
      && (p.telephone == Null <==> f.telephone == "") && (f.telephone != "" ==> p.telephone == Text(f.telephone))
      && (p.email == Null <==> f.email == "") && (f.email != "" ==> p.email == Text(f.email))
      && (p.description == Null <==> f.description == "") && (f.description != "" ==> p.description == Text(f.description))
      && (p.latitude == Null <==> f.latitude == "") && (f.latitude != "" ==> p.latitude == ParsedFloat(f.latitude))
      && (p.longitude == Null <==> f.longitude == "") && (f.longitude != "" ==> p.longitude == ParsedFloat(f.longitude))
  {
  }

  /**
   * Editing a centre and submitting the prefilled form unchanged writes back
   * its columns: the nullable ones as they were, empty text as null.
   */
  lemma CentreEditRoundTrip(c: CentreMedical)
    ensures var p := BuildCentrePayload(CentreFormFor(Some(c)));
      && p.nom == Text(c.nom) && p.adresse == Text(c.adresse) && p.ville == Text(c.ville)
      && p.codePostal == StoredText(c.codePostal) && p.telephone == StoredText(c.telephone)
      && p.email == StoredText(c.email) && p.description == StoredText(c.description)
      && p.latitude == StoredFloat(c.latitude) && p.longitude == StoredFloat(c.longitude)
  {
    PrefillThenSend(c.codePostal);
    PrefillThenSend(c.telephone);
    PrefillThenSend(c.email);
    PrefillThenSend(c.description);
  }

  /** Creating a centre from the untouched blank form sends empty name, address and city and null elsewhere. */
  lemma BlankCentrePayload()
    ensures CentreFormFor(None) == BlankCentreForm
    ensures BuildCentrePayload(BlankCentreForm)
      == CentrePayload(Text(""), Text(""), Text(""), Null, Null, Null, Null, Null, Null)
  {
  }
}
