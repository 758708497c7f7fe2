/**
 * The request handlers as operations on an abstract store: the `applications` table is a
 * map from id to row, and the `uploads` directory is the set of paths present on disk.
 * Multer has already run when a handler starts, so an operation that receives files first
 * adds their paths to the directory (or aborts, storing nothing, when multer refuses them).
 */
module Store {
  import opened Text
  import opened Records
  import opened Upload
  import opened Intake

  const MissingFieldsError := "All required fields must be provided"
  const DuplicateError := "Duplicate application detected for today"
  const InvalidStatusError := "Invalid status"
  const NoFileError := "No file uploaded"

  /** What a handler answers. */
  datatype Response =
    | Created(id: nat)                 // 201 {id, message}
    | Updated(application: Application) // 200 {message, application}
    | Done                             // 200 {message}
    | BadRequest(error: string)        // 400 {error}
    | NotFound                         // 404 "Application not found"
    | UploadRefused                    // multer's error, raised before the handler runs

  /** Every file a row refers to is on disk. */
  ghost predicate ReferencesStored(table: map<nat, Application>, files: set<string>)
  {
    forall id, p | id in table && p in PathsOf(table[id]) :: p in files
  }

  /** No file is shared by two rows, nor by a row's offer letter and its documents. */
  ghost predicate ReferencesDisjoint(table: map<nat, Application>)
  {
    && (forall i, j | i in table && j in table && i != j :: PathsOf(table[i]) !! PathsOf(table[j]))
    && (forall i | i in table :: OfferPath(table[i].offerLetter) !! DocumentPaths(table[i].documents))
  }

  ghost predicate ConsistentState(table: map<nat, Application>, files: set<string>)
  {
    ReferencesStored(table, files) && ReferencesDisjoint(table)
  }

  /** Inserting a row whose files were all freshly written keeps the store consistent. */
  lemma InsertKeepsConsistent(
    table: map<nat, Application>, files: set<string>, id: nat, row: Application, uploads: map<string, FileInfo>)
    requires ConsistentState(table, files)
    requires id !in table
    requires row.documents == uploads && row.offerLetter == None
    requires UploadedPaths(uploads) !! files
    ensures ConsistentState(table[id := row], files + UploadedPaths(uploads))
  {
    assert PathsOf(row) <= UploadedPaths(uploads) by {
      forall p | p in PathsOf(row) ensures p in UploadedPaths(uploads) {
        var c :| c in row.documents && row.documents[c].path == p;
      }
    }
  }

  /** Pointing a row at a freshly written offer letter keeps the store consistent. */
  lemma AttachKeepsConsistent(table: map<nat, Application>, files: set<string>, id: nat, offer: FileInfo)
    requires ConsistentState(table, files)
    requires id in table && offer.path !in files
    ensures ConsistentState(table[id := table[id].(offerLetter := Some(offer))], files + {offer.path})
  {
    var row := table[id].(offerLetter := Some(offer));
    var t := table[id := row];
    assert PathsOf(row) <= PathsOf(table[id]) + {offer.path};
    forall i | i in table && i != id ensures offer.path !in PathsOf(table[i]) {
    }
    assert offer.path !in DocumentPaths(row.documents);
    forall i, j | i in t && j in t && i != j ensures PathsOf(t[i]) !! PathsOf(t[j]) {
      if i == id || j == id {
        assert PathsOf(table[i]) !! PathsOf(table[j]);
      }
    }
  }

  class ApplicationStore {
    /** The `applications` table, keyed by its serial id. */
    var table: map<nat, Application>
    /** Paths present in the `uploads` directory. */
    var files: set<string>
    /** The next value of the id sequence. */
    var nextId: nat

    /** Each row sits under its own id, and the sequence is past every id handed out. */
    ghost predicate Valid()
      reads this
    {
      forall id | id in table :: id < nextId && table[id].id == id
    }

    /** No dangling reference, and deleting one row's file cannot break another row. */
    ghost predicate Consistent()
      reads this
    {
      ConsistentState(table, files)
    }

    /** An empty table over an uploads directory that may already hold files. */
    constructor(existing: set<string>)
      ensures Valid() && Consistent()
      ensures table == map[] && files == existing && nextId == 1
    {
      table := map[];
      files := existing;
      nextId := 1;
    }

    /**
     * POST /api/applications. Validation order: multer's checks, required fields, the
     * duplicate rule; only then the insert. A 400 leaves the uploaded files on disk.
     */
    method Submit(form: SubmissionForm, uploads: map<string, FileInfo>, today: string) returns (response: Response)
      requires Valid()
      modifies this
      ensures Valid()
      ensures !UploadsAccepted(uploads) ==>
        response == UploadRefused && table == old(table) && files == old(files) && nextId == old(nextId)
      ensures UploadsAccepted(uploads) ==> files == old(files) + UploadedPaths(uploads)
      ensures UploadsAccepted(uploads) && MissingRequiredField(form) ==>
        response == BadRequest(MissingFieldsError) && table == old(table) && nextId == old(nextId)
      ensures UploadsAccepted(uploads) && !MissingRequiredField(form)
              && IsDuplicate(old(table), form.email.value, form.phone.value, today) ==>
        response == BadRequest(DuplicateError) && table == old(table) && nextId == old(nextId)
      ensures response.Created? <==>
        UploadsAccepted(uploads) && !MissingRequiredField(form)
        && !IsDuplicate(old(table), form.email.value, form.phone.value, today)
      ensures response.Created? ==>
        && response.id == old(nextId) && response.id !in old(table)
        && table == old(table)[response.id := NewApplication(response.id, form, uploads, today)]
        && nextId == old(nextId) + 1
      ensures old(Consistent()) && UploadedPaths(uploads) !! old(files) ==> Consistent()
    {
      if !UploadsAccepted(uploads) {
        return UploadRefused;
      }
      files := files + UploadedPaths(uploads);
      if MissingRequiredField(form) {
        return BadRequest(MissingFieldsError);
      }
      if IsDuplicate(table, form.email.value, form.phone.value, today) {
        return BadRequest(DuplicateError);
      }
      var documents := BuildDocuments(uploads);
      AcceptedUploadsAreAllRecorded(uploads, documents);
      var id := Insert(form, documents, today, old(files));
      response := Created(id);
    }

    /**
     * The INSERT of an accepted submission: one new row under the next id, status pending.
     * `stored` is the directory as it was before the row's documents were written.
     */
    method Insert(form: SubmissionForm, documents: map<string, FileInfo>, today: string, ghost stored: set<string>)
      returns (id: nat)
      requires Valid() && !MissingRequiredField(form)
      requires files == stored + UploadedPaths(documents)
      modifies this`table, this`nextId
      ensures Valid()
      ensures id == old(nextId) && id !in old(table) && nextId == old(nextId) + 1
      ensures table == old(table)[id := NewApplication(id, form, documents, today)]
      ensures ConsistentState(old(table), stored) && UploadedPaths(documents) !! stored ==> Consistent()
    {
      id := nextId;
      var row := NewApplication(id, form, documents, today);
      ghost var before := table;
      table := table[id := row];
      nextId := nextId + 1;
      assert ConsistentState(before, stored) && UploadedPaths(documents) !! stored ==> Consistent() by {
        if ConsistentState(before, stored) && UploadedPaths(documents) !! stored {
          InsertKeepsConsistent(before, stored, id, row, documents);
        }
      }
    }

    /** PUT /api/applications/:id/status: an unconditional overwrite with a whitelisted value. */
    method UpdateStatus(id: nat, requested: Field) returns (response: Response)
      requires Valid()
      modifies this
      ensures Valid() && files == old(files) && nextId == old(nextId)
      ensures !ValidStatus(requested) ==> response == BadRequest(InvalidStatusError) && table == old(table)
      ensures ValidStatus(requested) && id !in old(table) ==> response == NotFound && table == old(table)
      ensures ValidStatus(requested) && id in old(table) ==>
        && table == old(table)[id := old(table)[id].(status := ParseStatus(requested).value)]
        && StatusName(table[id].status) == requested.value
        && response == Updated(table[id])
      ensures old(Consistent()) ==> Consistent()
    {
      var status := ParseStatus(requested);
      if status.None? {
        return BadRequest(InvalidStatusError);
      }
      if id !in table {
        return NotFound;
      }
      table := table[id := table[id].(status := status.value)];
      response := Updated(table[id]);
    }

    /**
     * POST /api/applications/:id/offer-letter. The new letter replaces the reference to any
     * previous one, whose file stays on disk; on an unknown id the new file is deleted again.
     */
    method AttachOfferLetter(id: nat, upload: Option<FileInfo>) returns (response: Response)
      requires Valid()
      modifies this
      ensures Valid() && nextId == old(nextId)
      ensures upload.Some? && !FileAccepted(upload.value.mimeType, upload.value.name) ==>
        response == UploadRefused && table == old(table) && files == old(files)
      ensures upload.None? ==> response == BadRequest(NoFileError) && table == old(table) && files == old(files)
      ensures upload.Some? && FileAccepted(upload.value.mimeType, upload.value.name) && id !in old(table) ==>
        response == NotFound && table == old(table) && files == old(files) - {upload.value.path}
      ensures upload.Some? && FileAccepted(upload.value.mimeType, upload.value.name) && id in old(table) ==>
        && table == old(table)[id := old(table)[id].(offerLetter := upload)]
        && files == old(files) + {upload.value.path}
        && response == Updated(table[id])
      ensures old(Consistent()) && (upload.Some? ==> upload.value.path !in old(files)) ==> Consistent()
    {
      if upload.Some? && !FileAccepted(upload.value.mimeType, upload.value.name) {
        return UploadRefused;
      }
      if upload.None? {
        return BadRequest(NoFileError);
      }
      var path := upload.value.path;
      files := files + {path};
      if id !in table {
        files := files - {path};
        return NotFound;
      }
      ghost var before := table;
      table := table[id := table[id].(offerLetter := upload)];
      response := Updated(table[id]);
      assert ConsistentState(before, old(files)) && path !in old(files) ==> Consistent() by {
        if ConsistentState(before, old(files)) && path !in old(files) {
          AttachKeepsConsistent(before, old(files), id, upload.value);
        }
      }
    }

    /** DELETE /api/applications/:id/offer-letter: delete the letter's file, then clear the reference. */
    method RemoveOfferLetter(id: nat) returns (response: Response)
      requires Valid()
      modifies this
      ensures Valid() && nextId == old(nextId)
      ensures id !in old(table) ==> response == NotFound && table == old(table) && files == old(files)
      ensures id in old(table) ==>
        && response == Done
        && table == old(table)[id := old(table)[id].(offerLetter := None)]
        && files == old(files) - OfferPath(old(table)[id].offerLetter)
      ensures old(Consistent()) ==> Consistent()
    {
      if id !in table {
        return NotFound;
      }
      var offer := table[id].offerLetter;
      if offer.Some? && offer.value.path != "" && offer.value.path in files {
        files := files - {offer.value.path};
      }
      table := table[id := table[id].(offerLetter := None)];
      response := Done;
    }

    /** Deletes, where present on disk, every file the row refers to. */
    method DeleteRowFiles(row: Application)
      modifies this`files
      ensures files == old(files) - PathsOf(row)
    {
      var remaining := row.documents.Keys;
      while remaining != {}
        invariant remaining <= row.documents.Keys
        invariant files == old(files) - DocumentPathsIn(row.documents, row.documents.Keys - remaining)
        decreases remaining
      {
        var category :| category in remaining;
        var doc := row.documents[category];
        if doc.path != "" && doc.path in files {
          files := files - {doc.path};
        }
        assert DocumentPathsIn(row.documents, row.documents.Keys - (remaining - {category}))
            == DocumentPathsIn(row.documents, row.documents.Keys - remaining)
               + DocumentPathsIn(row.documents, {category});
        remaining := remaining - {category};
      }
      var offer := row.offerLetter;
      if offer.Some? && offer.value.path != "" && offer.value.path in files {
        files := files - {offer.value.path};
      }
    }

    /** DELETE /api/applications: delete every referenced file, then every row. */
    method ClearAll() returns (response: Response)
      requires Valid()
      modifies this
      ensures Valid() && Consistent()
      ensures response == Done
      ensures table == map[] && nextId == old(nextId)
      ensures files == old(files) - PathsOfRows(old(table), old(table).Keys)
    {
      var remaining := table.Keys;
      while remaining != {}
        invariant remaining <= table.Keys
        invariant table == old(table) && nextId == old(nextId)
        invariant files == old(files) - PathsOfRows(table, table.Keys - remaining)
        decreases remaining
      {
        var id :| id in remaining;
        DeleteRowFiles(table[id]);
        assert PathsOfRows(table, table.Keys - (remaining - {id}))
            == PathsOfRows(table, table.Keys - remaining) + PathsOf(table[id]);
        remaining := remaining - {id};
      }
      table := map[];
      response := Done;
    }
  }
}
