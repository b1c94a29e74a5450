/**
 * The handler's behaviour on the requests of the repository's integration
 * tests (Api.Tests/TimeEntryValidationTests.cs) and on a few more concrete
 * requests.
 */
module Scenarios {
  import opened Options
  import opened Validation
  import opened TimeEntries
  import FullDate
  import Text

  /** The sample date of the tests is a full-date. */
  lemma SampleDateParses()
    ensures FullDate.IsFullDate("2025-10-07")
  {
    var d := FullDate.Date(2025, 10, 7);
    FullDate.ParseFormat(d);
    assert FullDate.Format(d) == "2025-10-07";
  }

  /** The sample date and project of the tests are not blank. */
  lemma SampleFieldsNotBlank()
    ensures !Text.IsNullOrWhiteSpace(Some("2025-10-07"))
    ensures !Text.IsNullOrWhiteSpace(Some("TestProject"))
  {
    assert !Text.IsWhite("2025-10-07"[0]);
    assert !Text.IsWhite("TestProject"[0]);
  }

  /**
   * A zero duration is rejected with the duration message on any store,
   * whatever the date parser says, and the store is left unchanged. The two
   * tests share one server, so this request may arrive before or after the
   * valid one.
   */
  lemma ZeroDurationIsBadRequest(s: Store, parses: string -> bool)
    ensures var step := Handle(s, TimeEntryRequest(Some("2025-10-07"), 0, Some("TestProject")), parses);
            && step.response.BadRequest?
            && DurationNotPositive.Message() in step.response.errors
            && step.store == s
  {
    MessageInBody(Validate(TimeEntryRequest(Some("2025-10-07"), 0, Some("TestProject")), parses), DurationNotPositive);
  }

  /** With the full-date parser the zero-duration request gets the duration message alone, on any store. */
  lemma ZeroDurationOnlyError(s: Store)
    ensures Handle(s, TimeEntryRequest(Some("2025-10-07"), 0, Some("TestProject")), FullDate.IsFullDate).response
            == BadRequest(["durationMinutes must be greater than 0"])
  {
    SampleDateParses();
    SampleFieldsNotBlank();
  }

  /** The valid test request on a fresh store is created with id 1 and its fields copied. */
  lemma ValidRequestIsCreated()
    ensures Handle(Initial, TimeEntryRequest(Some("2025-10-07"), 90, Some("TestProject")), FullDate.IsFullDate)
            == Step(Store([TimeEntry(1, "2025-10-07", 90, "TestProject")], 2),
                    Created(TimeEntry(1, "2025-10-07", 90, "TestProject")))
  {
    SampleDateParses();
    SampleFieldsNotBlank();
  }

  /**
   * On any store the valid test request is created, stamped with the store's
   * counter and with its fields copied, whichever test ran first.
   */
  lemma ValidRequestCreatedOnAnyStore(s: Store)
    ensures Handle(s, TimeEntryRequest(Some("2025-10-07"), 90, Some("TestProject")), FullDate.IsFullDate).response
            == Created(TimeEntry(s.nextId, "2025-10-07", 90, "TestProject"))
  {
    SampleDateParses();
    SampleFieldsNotBlank();
  }

  /** Empty date, zero duration and empty project give all three messages in field order. */
  lemma AllFieldsBlank(parses: string -> bool)
    ensures Handle(Initial, TimeEntryRequest(Some(""), 0, Some("")), parses).response
            == BadRequest(["date is required",
                           "durationMinutes must be greater than 0",
                           "project is required and cannot be empty"])
  {
  }

  /** A blank date gets the required message and never the format message. */
  lemma WhitespaceDateIsRequired(parses: string -> bool)
    ensures Validate(TimeEntryRequest(Some(" \t"), 5, Some("P")), parses) == [DateRequired]
  {
    assert Text.IsWhite(" \t"[0]) && Text.IsWhite(" \t"[1]);
    assert !Text.IsWhite("P"[0]);
  }

  /** Two valid requests in a row on a fresh store get ids 1 and 2. */
  lemma TwoPostsGetIdsOneAndTwo()
    ensures var req := TimeEntryRequest(Some("2025-10-07"), 90, Some("TestProject"));
            var first := Handle(Initial, req, FullDate.IsFullDate);
            var second := Handle(first.store, req, FullDate.IsFullDate);
            && first.response.Created? && first.response.entry.id == 1
            && second.response.Created? && second.response.entry.id == 2
  {
    SampleDateParses();
    SampleFieldsNotBlank();
  }
}
