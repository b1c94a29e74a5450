# Time-entries service: the POST /time-entries handler in Dafny

This project models the only logic of a small ASP.NET time-tracking API. It is
the handler of `POST /time-entries` in `Api/Program.cs`, which has two parts.

- **The validator** (`Validation.Validate`) checks a `TimeEntryRequest`
  (a nullable date string, a 32-bit duration in minutes and a nullable project
  string). It collects error messages without stopping at the first failure.
  A blank date gives "date is required". Otherwise an unparseable date gives the
  ISO 8601 message; this is the `else if`, so a missing date never gets both
  messages. A duration of 0 or less gives the duration message. A blank project
  gives the project message. The messages always come in the order date,
  duration, project. The four failures are the constructors of `FieldError`,
  whose `Message()` is the exact text the handler sends.
- **The store step** (`TimeEntries.Handle`) works on the handler's captured
  state: the entry list and the `nextId` counter, modelled as
  `Store(entries, nextId)`. A request with any error is answered
  `BadRequest(errors)` and the store is left unchanged. Otherwise an entry is
  built with `Id = nextId` and the request's fields copied unchanged. The counter
  then steps with C#'s unchecked `++` and the entry is appended.

`TimeEntries.Run` applies the handler to a sequence of requests one at a time,
starting from the start-up state `Initial = Store([], 1)`. The lemmas prove an
invariant for every reachable state:

- the counter is the identifier of the next acceptance;
- the i-th entry carries the i-th identifier;
- every stored entry passed validation.

They also prove that a run stores exactly the accepted requests, in arrival order.

Date parsing (`DateOnly.TryParse`) is a function parameter `parses` of
`Validate`, `Handle` and `Run`. Every property about them therefore holds for
any date parser whose verdicts do not change between calls. Module `FullDate` gives one concrete parser: the `full-date`
form of section 5.6 of RFC 3339, with the day limits of section 5.7. It is
restricted to the years 0001 to 9999, the range a .NET `DateOnly` can hold, so
"0000-01-01" is refused (`FullDate.YearZeroRefused`). It reads the year in the
Gregorian calendar. It is stricter than the .NET parser under a
Gregorian-calendar culture such as the invariant culture or en-US, but not a
copy of it. It is used only in the concrete scenarios of module `Scenarios`.
The handler calls `DateOnly.TryParse` without a format provider, so the
current culture's calendar applies. Under a culture with another calendar
(th-TH counts Thai Buddhist years, 543 ahead), strings such as "0001-01-01"
are refused by the program although `FullDate` accepts them.
`string.IsNullOrWhiteSpace` is modelled over the fixed set of characters that
.NET's `Char.IsWhiteSpace` accepts (`Text.IsWhite`).

Identifiers are C# `int`. `nextId++` wraps from int.MaxValue (2^31 - 1) to
int.MinValue, and the model keeps that behaviour: `IdAt(k)` is the 32-bit
truncation of `k + 1` (`IdAtIsWrapped`). Identifiers are `1, 2, 3, …`, strictly
increasing and unique only while the store holds at most 2^31 - 1 entries
(`IdAtBelowMax`, `IdsIncreasing`, `IdAtWrapsAtMax`). The model always appends,
so in it the counter reaches int.MaxValue only after 2^31 - 2 stored entries.
The program cannot store that many: a `List<T>` holds at most 0x7FFFFFC7
entries. In a sequential run the program's counter reaches int.MaxValue only when
some accepted requests fail after `nextId++` (Api/Program.cs:43) and before
`timeEntries.Add(entry)` (Api/Program.cs:49), which the model leaves out (see
below).

`Api/Program.cs` has only the create path:

- There is no listing endpoint, no date-range filtering, no health probe and
  no lock around the shared list and counter.
- The stored date is the raw request string, whatever `DateOnly.TryParse`
  accepted. It is not normalised to YYYY-MM-DD.
- Identifiers come from the `int` counter and can repeat after it wraps, as
  described above.

## Model

| member | source | states |
|---|---|---|
| `Int32Arith.Inc` | Api/Program.cs:43 | The post-increment of the `int` counter is x + 1 truncated to 32 bits (two's complement): x + 1 below int.MaxValue, int.MinValue at it |
| `Validation.Validate` | Api/Program.cs:14-34 | Each of the four errors is reported exactly when its condition holds: blank date; non-blank unparseable date; duration <= 0; blank project. At most one error per field, in order date, duration, project, so at most 3. The list is empty exactly when the request is acceptable |
| `Validation.DateErrors` | Api/Program.cs:17-24 | The date check adds at most one error. It is "required" exactly when the date is null or blank, and "invalid" exactly when the date is present, non-blank and refused by the parser, so never both |
| `Validation.MessageInBody` | Api/Program.cs:19-38 | An error's text is in the 400 body exactly when the error is in the validator's list (the four texts are distinct) |
| `Validation.ValidateIsTheOnlyReport` | Api/Program.cs:14-34 | The field-by-field description determines the error list completely: any list meeting it equals Validate's result |
| `TimeEntries.Handle` | Api/Program.cs:36-49 | Created exactly when the request is acceptable. On rejection the response carries exactly the texts of the non-empty validator list, in order, and the store is unchanged. On acceptance the id is the old counter, date/duration/project are copied from the request, the entry is well formed, the old entries are kept with the new one appended, and the counter becomes the 32-bit truncation of old + 1 |
| `TimeEntries.IdAtIsWrapped` | Api/Program.cs:43 | The identifier given to the k-th accepted request is the 32-bit truncation of k + 1 |
| `TimeEntries.IdAtBelowMax` | Api/Program.cs:43 | While fewer than int.MaxValue entries exist, the k-th identifier is k + 1 |
| `TimeEntries.IdAtWrapsAtMax` | Api/Program.cs:43 | The identifier after 2^31 - 1 acceptances is int.MinValue (the counter wraps) |
| `TimeEntries.InitialValid` | Api/Program.cs:7-8 | The start-up state (no entries, counter 1) satisfies the store invariant |
| `TimeEntries.HandlePreservesValid` | Api/Program.cs:36-49 | One handler call, accepted or rejected, preserves the store invariant |
| `TimeEntries.RunPreservesValid` | Api/Program.cs:36-49 | Any sequence of handler calls from a valid store ends in a valid store |
| `TimeEntries.RunAppendsAccepted` | Api/Program.cs:36-49 | A sequence of calls keeps the stored entries and appends one entry per accepted request, in arrival order. The k-th appended entry has identifier IdAt(old count + k). Rejected requests add nothing |
| `TimeEntries.ReachableStates` | Api/Program.cs:7-49 | Every state reachable from start-up satisfies the invariant. Below 2^31 - 1 entries, nextId == count + 1 and entry i has id i + 1 |
| `TimeEntries.ReachableEntries` | Api/Program.cs:7-49 | From start-up the stored list equals the accepted requests in arrival order, the k-th with identifier IdAt(k) and its fields copied; rejected requests leave no trace |
| `TimeEntries.IdsIncreasing` | Api/Program.cs:42-49 | In a valid store of at most 2^31 - 1 entries, ids strictly increase in insertion order and so are unique. Below that bound the counter exceeds every stored id |
| `TimeEntries.SameRequestTwice` | Api/Program.cs:42-49 | Creating is not idempotent: while fewer than 2^31 - 2 entries exist in a valid store, the same acceptable request sent twice creates two entries with consecutive ids, the first being count + 1 |
| `TimeEntries.SameRequestTwiceDistinct` | Api/Program.cs:42-49 | On any store, of any size, the same acceptable request sent twice gets two Created responses. The second id is the unchecked successor of the first, so the two ids differ |
| `FullDate.ParseFormat` | Api/Program.cs:21 | Concrete stand-in parser: every valid calendar date, written as YYYY-MM-DD, parses back to itself |
| `FullDate.YearZeroRefused` | Api/Program.cs:21 | Concrete stand-in parser: a year-0000 date is refused, as it is outside the range of a .NET DateOnly |
| `FullDate.FormatParse` | Api/Program.cs:21 | Concrete stand-in parser: every string it accepts is exactly the YYYY-MM-DD rendering of the date it yields |
| `Scenarios.ZeroDurationIsBadRequest` | Api.Tests/TimeEntryValidationTests.cs:17-33 | On any store, with any date parser, the test's zero-duration request gets BadRequest with the duration message and the store is unchanged (the tests share one server, in no fixed order) |
| `Scenarios.ZeroDurationOnlyError` | Api.Tests/TimeEntryValidationTests.cs:17-33 | On any store, with the full-date parser, the zero-duration request's error list is exactly the duration message |
| `Scenarios.ValidRequestIsCreated` | Api.Tests/TimeEntryValidationTests.cs:35-51 | On a fresh store the test's valid request is Created with id 1 and its fields copied. The store then holds that one entry and the counter is 2 |
| `Scenarios.ValidRequestCreatedOnAnyStore` | Api.Tests/TimeEntryValidationTests.cs:35-51 | On any store, whichever test ran first, the test's valid request is Created with the store's counter as id and its fields copied |
| `Scenarios.AllFieldsBlank` | Api/Program.cs:14-34 | Empty date, zero duration and empty project give exactly the three messages in order date, duration, project |
| `Scenarios.WhitespaceDateIsRequired` | Api/Program.cs:17-24 | An all-whitespace date gets "date is required" and not the format message |
| `Scenarios.TwoPostsGetIdsOneAndTwo` | Api/Program.cs:42-49 | Two valid requests in a row on a fresh store get ids 1 and 2 |

## Left out

- ASP.NET wiring: the builder, `MapPost`, `app.Run`, the `Results.BadRequest` / `Results.Created` objects and the `Location` header (Api/Program.cs:3-4, 11, 38, 51, 54). They are framework plumbing; the response is the plain datatype `Response`.
- JSON binding of the request body. A body whose `durationMinutes` does not fit in an `int`, or is neither a JSON integer nor a string holding one, is refused by the framework before the handler runs. A string such as `"90"` binds to 90. The model starts from an already-bound `TimeEntryRequest`.
- The internals of `DateOnly.TryParse`. It is a culture-dependent library parser, so it is a parameter. `FullDate` is only an approximation (YYYY-MM-DD, Gregorian years 0001 to 9999), used in the concrete scenarios. It is stricter than the .NET parser only under a Gregorian-calendar culture. The dependence of `DateOnly.TryParse` on the current culture's calendar is not modelled.
- TimeEntries.RunPreservesValid, TimeEntries.RunAppendsAccepted, TimeEntries.ReachableStates and TimeEntries.ReachableEntries: these run lemmas use one fixed `parses` for every call. `DateOnly.TryParse` is not fixed over time: it completes a date without a year (such as "2/29") with the current year. So an entry accepted in one year may be refused by the parser in a later year, and the conjunct of `Valid` that every stored date parses is promised only for a parser whose verdicts do not change. The identifier, counter and append properties do not depend on the parser.
- Failures between the counter increment and the append (Api/Program.cs:43-49). If allocating the entry or `timeEntries.Add` throws, the program has already advanced `nextId`, stores nothing and answers 500. `Add` throws once the list holds 0x7FFFFFC7 entries. The model's accepted step always appends, so its invariant `nextId == IdAt(|entries|)` describes only runs in which no such failure occurs.
- Whitespace: the model uses a fixed character set for `Char.IsWhiteSpace`, not .NET's Unicode tables.
- Concurrency: the handler mutates shared state without a lock, and the server may run handlers in parallel. The model applies requests one at a time.
- The test harness (`WebApplicationFactory`, `HttpClient`). Only the two tests' requests and expected outcomes are kept, as `Scenarios` lemmas.
- Listing with from/to filtering, the health probe, and update/delete do not exist in the code.
