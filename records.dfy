/**
 * The one persisted entity, an application row of the `applications` table, and the
 * values it is built from.
 */
module Records {
  import opened Text

  /** A request field: `None` when the field is absent (or not a string). */
  type Field = Option<string>

  /** JavaScript truthiness of a request field: present and not the empty string. */
  predicate Truthy(f: Field)
  {
    f.Some? && f.value != ""
  }

  /** Review status of an application. */
  datatype Status = Pending | Approved | Rejected

  function StatusName(s: Status): string
  {
    match s
    case Pending => "pending"
    case Approved => "approved"
    case Rejected => "rejected"
  }

  /** The whitelist `['approved', 'rejected', 'pending'].includes(status)`. */
  predicate ValidStatus(requested: Field)
  {
    requested.Some? && requested.value in ["approved", "rejected", "pending"]
  }

  /** The status a whitelisted request value names; `None` for anything else. */
  function ParseStatus(requested: Field): (r: Option<Status>)
    ensures r.Some? <==> ValidStatus(requested)
    ensures r.Some? ==> StatusName(r.value) == requested.value
  {
    if requested == Some("approved") then Some(Approved)
    else if requested == Some("rejected") then Some(Rejected)
    else if requested == Some("pending") then Some(Pending)
    else None
  }

  /** Every status the store can hold is accepted by the whitelist and parsed back to itself. */
  lemma StatusRoundTrip(s: Status)
    ensures ValidStatus(Some(StatusName(s)))
    ensures ParseStatus(Some(StatusName(s))) == Some(s)
  {
  }

  /** An uploaded file as stored in a row: `{name, path, type, size}`. */
  datatype FileInfo = FileInfo(name: string, path: string, mimeType: string, size: nat)

  /** The `personal_info` column. */
  datatype PersonalInfo = PersonalInfo(
    fullName: string, email: string, phone: string,
    gender: string, fatherName: string, fatherPhone: string)

  /** The `employment_history` column (its parts may be absent in the request). */
  datatype EmploymentHistory = EmploymentHistory(companyName: Field, location: Field, experience: Field)

  /** One row of the `applications` table. `createdDay` is `DATE(created_at)`. */
  datatype Application = Application(
    id: nat,
    role: string,
    location: string,
    personal: PersonalInfo,
    employmentStatus: Field,
    employmentHistory: Option<EmploymentHistory>,
    documents: map<string, FileInfo>,
    offerLetter: Option<FileInfo>,
    status: Status,
    createdDay: string)

  /** Truthy paths of the documents filed under `categories`. */
  function DocumentPathsIn(docs: map<string, FileInfo>, categories: set<string>): set<string>
  {
    set c | c in categories && c in docs && docs[c].path != "" :: docs[c].path
  }

  /** Paths of the row's documents that the clean-up code would try to delete (truthy ones). */
  function DocumentPaths(docs: map<string, FileInfo>): set<string>
  {
    DocumentPathsIn(docs, docs.Keys)
  }

  /** The offer-letter path, if there is a truthy one. */
  function OfferPath(offer: Option<FileInfo>): set<string>
  {
    if offer.Some? && offer.value.path != "" then {offer.value.path} else {}
  }

  /** Every stored file a row refers to. */
  function PathsOf(app: Application): set<string>
  {
    DocumentPaths(app.documents) + OfferPath(app.offerLetter)
  }

  /** Every stored file referred to by the rows `ids` of `table`. */
  function PathsOfRows(table: map<nat, Application>, ids: set<nat>): set<string>
  {
    set id, p | id in ids && id in table && p in PathsOf(table[id]) :: p
  }
}
