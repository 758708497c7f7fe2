/** Clients of the store, walking through request sequences against the contracts alone. */
module Scenarios {
  import opened Text
  import opened Records
  import opened Upload
  import opened Intake
  import opened Store

  /** The same applicant on the same day is refused; on the next day they are accepted. */
  method ResubmissionOnTheSameDay(form: SubmissionForm, today: string, tomorrow: string)
    requires !MissingRequiredField(form) && today != tomorrow
  {
    var store := new ApplicationStore({});
    var first := store.Submit(form, map[], today);
    assert first == Created(1);
    SameDayResubmissionIsDuplicate(map[], 1, form, map[], today);
    var second := store.Submit(form, map[], today);
    assert second == BadRequest(DuplicateError);
    OtherDayIsNotDuplicate(map[], 1, form, map[], today, tomorrow, form.email.value, form.phone.value);
    var third := store.Submit(form, map[], tomorrow);
    assert third == Created(2);
    assert |store.table| == 2;
  }

  /** An offer letter sent for an unknown id is deleted again and nothing else changes. */
  method OfferLetterForUnknownId(form: SubmissionForm, letter: FileInfo, today: string)
    requires !MissingRequiredField(form)
    requires FileAccepted(letter.mimeType, letter.name)
  {
    var store := new ApplicationStore({});
    var created := store.Submit(form, map[], today);
    assert created == Created(1);
    var missing := store.AttachOfferLetter(2, Some(letter));
    assert missing == NotFound && store.files == {} && |store.table| == 1;
  }

  /** An attached offer letter stays on disk until the table is cleared, which deletes it. */
  method OfferLetterUntilClear(form: SubmissionForm, letter: FileInfo, today: string)
    requires !MissingRequiredField(form)
    requires FileAccepted(letter.mimeType, letter.name) && letter.path != ""
  {
    var store := new ApplicationStore({});
    var created := store.Submit(form, map[], today);
    assert created == Created(1);
    var attached := store.AttachOfferLetter(1, Some(letter));
    assert attached.Updated? && attached.application.offerLetter == Some(letter);
    assert store.files == {letter.path};
    ghost var rows := store.table;
    assert letter.path in PathsOf(rows[1]);
    var cleared := store.ClearAll();
    assert store.table == map[] && store.files == {};
  }
}
