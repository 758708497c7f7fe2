/**
 * What the submission route computes before it touches the table: the required-field
 * check, the `documents` object built from the uploaded files, the employment history,
 * the duplicate rule, and the row that is finally inserted.
 */
module Intake {
  import opened Text
  import opened Records
  import opened Upload

  /** The text fields of a submission's multipart body. */
  datatype SubmissionForm = SubmissionForm(
    role: Field, location: Field,
    fullName: Field, email: Field, phone: Field,
    gender: Field, fatherName: Field, fatherPhone: Field,
    employmentStatus: Field,
    companyName: Field, companyLocation: Field, experience: Field)

  /** The fields that must be truthy, in the order the guard tests them. */
  function RequiredFields(form: SubmissionForm): seq<Field>
  {
    [form.role, form.location, form.fullName, form.email,
     form.phone, form.gender, form.fatherName, form.fatherPhone]
  }

  /** The guard of the 400 "All required fields must be provided". */
  function MissingRequiredField(form: SubmissionForm): (missing: bool)
    ensures missing <==> exists i | 0 <= i < |RequiredFields(form)| :: !Truthy(RequiredFields(form)[i])
  {
    var required := RequiredFields(form);
    assert required[0] == form.role && required[1] == form.location && required[2] == form.fullName
      && required[3] == form.email && required[4] == form.phone && required[5] == form.gender
      && required[6] == form.fatherName && required[7] == form.fatherPhone;
    !Truthy(form.role) || !Truthy(form.location) || !Truthy(form.fullName) || !Truthy(form.email)
    || !Truthy(form.phone) || !Truthy(form.gender) || !Truthy(form.fatherName) || !Truthy(form.fatherPhone)
  }

  /** The upload slots of the submission route, one file each. */
  const DocumentCategories: seq<string> := ["ssc", "inter", "graduation", "postgrad", "relieving"]

  /**
   * What multer lets through to the handler: only files in the declared slots, each one
   * passing the file filter. Anything else aborts the request before the handler runs.
   */
  function UploadsAccepted(uploads: map<string, FileInfo>): (ok: bool)
    ensures ok ==> |uploads| <= |DocumentCategories|
  {
    var accepted := forall field | field in uploads ::
      field in DocumentCategories && FileAccepted(uploads[field].mimeType, uploads[field].name);
    if accepted then
      CategoryCount(uploads);
      true
    else
      false
  }

  /** Keys drawn from the categories are at most as many as the categories. */
  lemma CategoryCount(uploads: map<string, FileInfo>)
    requires forall field | field in uploads :: field in DocumentCategories
    ensures |uploads| <= |DocumentCategories|
  {
    var slots := set c | c in DocumentCategories;
    SubsetCardinality(uploads.Keys, slots);
    DistinctAtMostLength(DocumentCategories);
  }

  /** A sequence has at least as many entries as distinct values. */
  lemma {:induction false} DistinctAtMostLength<T>(s: seq<T>)
    ensures |set x | x in s| <= |s|
  {
    if s != [] {
      var init := s[..|s| - 1];
      DistinctAtMostLength(init);
      assert (set x | x in s) <= (set x | x in init) + {s[|s| - 1]};
      SubsetCardinality(set x | x in s, (set x | x in init) + {s[|s| - 1]});
    }
  }

  lemma {:induction false} SubsetCardinality<T>(a: set<T>, b: set<T>)
    requires a <= b
    ensures |a| <= |b|
  {
    if a != {} {
      var x :| x in a;
      SubsetCardinality(a - {x}, b - {x});
    }
  }

  /** Paths multer has written for a request's uploads. */
  function UploadedPaths(uploads: map<string, FileInfo>): set<string>
  {
    set field | field in uploads :: uploads[field].path
  }

  /**
   * The `documents` object: for each category in turn, the uploaded file's record if that
   * slot received a file.
   */
  method BuildDocuments(uploads: map<string, FileInfo>) returns (documents: map<string, FileInfo>)
    ensures forall c :: c in documents <==> c in uploads && c in DocumentCategories
    ensures forall c | c in documents :: documents[c] == uploads[c]
  {
    documents := map[];
    for n := 0 to |DocumentCategories|
      invariant forall c :: c in documents <==> c in uploads && c in DocumentCategories[..n]
      invariant forall c | c in documents :: documents[c] == uploads[c]
    {
      var field := DocumentCategories[n];
      if field in uploads {
        documents := documents[field := uploads[field]];
      }
    }
  }

  /** Once multer has accepted the uploads, the documents object records every one of them. */
  lemma AcceptedUploadsAreAllRecorded(uploads: map<string, FileInfo>, documents: map<string, FileInfo>)
    requires UploadsAccepted(uploads)
    requires forall c :: c in documents <==> c in uploads && c in DocumentCategories
    requires forall c | c in documents :: documents[c] == uploads[c]
    ensures documents == uploads
  {
    assert documents.Keys == uploads.Keys by {
      forall c | c in uploads ensures c in documents {
        assert c in DocumentCategories;
      }
    }
  }

  /** `employmentHistory`: present exactly for an "experienced" applicant. */
  function EmploymentHistoryFor(form: SubmissionForm): (history: Option<EmploymentHistory>)
    ensures history.Some? <==> form.employmentStatus == Some("experienced")
    ensures history.Some? ==> history.value.companyName == form.companyName
                              && history.value.location == form.companyLocation
                              && history.value.experience == form.experience
  {
    if form.employmentStatus == Some("experienced") then
      Some(EmploymentHistory(form.companyName, form.companyLocation, form.experience))
    else None
  }

  /** The `personal_info` object of a form that passed the required-field check. */
  function PersonalInfoOf(form: SubmissionForm): (info: PersonalInfo)
    requires !MissingRequiredField(form)
    ensures Some(info.fullName) == form.fullName && Some(info.email) == form.email
    ensures Some(info.phone) == form.phone && Some(info.gender) == form.gender
    ensures Some(info.fatherName) == form.fatherName && Some(info.fatherPhone) == form.fatherPhone
    ensures info.fullName != "" && info.email != "" && info.phone != ""
  {
    PersonalInfo(form.fullName.value, form.email.value, form.phone.value,
                 form.gender.value, form.fatherName.value, form.fatherPhone.value)
  }

  /** The row inserted for an accepted submission on `today`. */
  function NewApplication(id: nat, form: SubmissionForm, documents: map<string, FileInfo>, today: string): (app: Application)
    requires !MissingRequiredField(form)
    ensures app.id == id && app.createdDay == today
    ensures app.status == Pending && app.offerLetter == None
    ensures app.documents == documents
    ensures app.employmentStatus == form.employmentStatus
    ensures app.employmentHistory == EmploymentHistoryFor(form)
    ensures app.employmentHistory.Some? <==> form.employmentStatus == Some("experienced")
    ensures Some(app.role) == form.role && Some(app.location) == form.location
    ensures app.personal == PersonalInfoOf(form)
    ensures Some(app.personal.email) == form.email && Some(app.personal.phone) == form.phone
  {
    Application(id, form.role.value, form.location.value, PersonalInfoOf(form),
                form.employmentStatus, EmploymentHistoryFor(form), documents, None, Pending, today)
  }

  /** A row that the duplicate query matches: same email and phone, created on `today`. */
  predicate SameApplicant(app: Application, email: string, phone: string, today: string)
  {
    app.personal.email == email && app.personal.phone == phone && app.createdDay == today
  }

  /** The ids the duplicate query returns. */
  function DuplicateRows(table: map<nat, Application>, email: string, phone: string, today: string): set<nat>
  {
    set id | id in table && SameApplicant(table[id], email, phone, today)
  }

  /** The duplicate rule, as the handler tests it: the query returned at least one row. */
  function IsDuplicate(table: map<nat, Application>, email: string, phone: string, today: string): (dup: bool)
    ensures dup <==> exists id | id in table :: SameApplicant(table[id], email, phone, today)
  {
    var rows := DuplicateRows(table, email, phone, today);
    if |rows| > 0 then
      var id :| id in rows;
      true
    else
      assert forall id | id in table && SameApplicant(table[id], email, phone, today) :: id in rows;
      false
  }

  /** Once a submission is stored, the same email and phone are a duplicate for the rest of that day. */
  lemma SameDayResubmissionIsDuplicate(
    table: map<nat, Application>, id: nat, form: SubmissionForm, documents: map<string, FileInfo>, today: string)
    requires !MissingRequiredField(form)
    ensures IsDuplicate(table[id := NewApplication(id, form, documents, today)],
                        form.email.value, form.phone.value, today)
  {
    var t := table[id := NewApplication(id, form, documents, today)];
    assert id in t;
  }

  /** A row created on another day never makes a submission a duplicate. */
  lemma OtherDayIsNotDuplicate(
    table: map<nat, Application>, id: nat, form: SubmissionForm, documents: map<string, FileInfo>,
    day: string, today: string, email: string, phone: string)
    requires !MissingRequiredField(form)
    requires !IsDuplicate(table, email, phone, today)
    requires day != today
    ensures !IsDuplicate(table[id := NewApplication(id, form, documents, day)], email, phone, today)
  {
  }
}
