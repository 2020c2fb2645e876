# Astronaut roster: a verified model of the command and query handlers

The service keeps three tables: `Person`, `AstronautDetail` (a person's career
summary) and `AstronautDuty` (one row per duty assignment). Seven handlers work
on these tables. This project models them in Dafny and proves the rules they
are meant to keep.

- **Duty timeline** (`duty_timeline.dfy`). Recording a duty runs in two steps.
  First a guard checks that the person exists and that the duty is not a
  duplicate. There are two guards: the current one searches only the person's
  duties, the legacy one searches everyone's. Then one shared transition runs:
  - it creates or updates the career summary;
  - it closes the person's latest duty (by start date) at "new start − 1 day";
  - it appends the new open duty.

  The title `Retired` also sets the career end date.
- **Identity registry** (`identity.dfy`). Creating a person is a duplicate-name
  guard followed by an append. Renaming answers 404 when the person is missing,
  400 when the new name is taken, and otherwise changes the name in place.
- **Career projection** (`projection.dfy`). Three queries build a
  `PersonAstronaut` record from a person and, when one exists, their summary.
  The duty history adds the person's duties, newest start first.
- **Store** (`store.dfy`). Class `StargateContext` holds the three tables as
  sequence fields, plus the counter the database uses to number new rows. Every
  command handler is one atomic method of the class. Its postcondition ties the
  new tables to the pure step function the handler performs, and
  `Valid()` states the store invariant:
  - ids are positive and fresh;
  - every duty and every summary belongs to a stored person;
  - each person has at most one summary.
- **Supporting modules:**
  - `dates.dfy` models a .NET `DateTime` as a day number plus the time of day
    in ticks. `.Date` drops the time; `.AddDays` shifts the day and keeps the time.
  - `entities.dfy` holds the rows and the first-match lookups that model
    `FirstOrDefault`.
  - `optional.dfy` holds `Option` and `Result`.

Dates need care in one place. The handler stores the start date truncated to
midnight, but the duplicate guard compares the raw request date. So a duplicate
is caught only when the requested start is at midnight.
`MidnightRequestRepeatedIsRejected` proves the midnight case and
`TimedRequestRepeatedIsNotDetected` proves the case with a time of day.

The tests expect each person to have at most one open duty, and that duty to
be their most recent (`CreateAstronautDutyCommandTests.cs:179-228`). The
handler closes the person's latest duty by start date, not their open duty.
When every new duty starts on a strictly later day than all of the person's
duties, the transition keeps "the only open duty is the latest"
(`RecordDutyInOrderKeepsTimeline`). Two kinds of history break that rule:
- **A backdated recording.** The new duty starts before the latest one. It
  still leaves exactly one open duty, because `RecordDutyLeavesOneOpenDuty`
  needs only that the open duty was the latest. But that open duty is then not
  the latest, so a second backdated recording leaves two open duties
  (`BackdatedRecordingsLeaveTwoOpenDuties`).
- **A same-day recording.** The new duty starts on the same day as the latest
  one, so two duties share the latest start. The model closes the first of
  them in table order, which is the older, already closed row. A strictly
  later recording then leaves two open duties
  (`SameDayRecordingLeavesTwoOpenDuties`).

Where the tests and the code disagree, the model follows the code:
- **Duty history for an unknown name.** `GetAstronautDutiesByNameQueryTests.cs:154-166`
  expects an empty list and a null person. The handler dereferences the missing
  person (`GetAstronautDutiesByName.cs:37`), so the model returns `Faulted`.
- **`GetPersonByName` for an unknown name.** `GetPersonByNameQueryTests.cs:40-42`
  expects 404 and "Person not found". The handler returns a null person and
  sets no error code, so the model returns `None`.
- **At most one open duty.** `CreateAstronautDutyCommandTests.cs:179-228`
  checks it for one in-order recording. The code keeps it while every
  recording starts on a strictly later day than the person's duties, and after
  a single backdated one, but not in general, as shown above.

## Model

| member | source | states |
|---|---|---|
| Dates.DateIsMidnight | package/exercise1/api/StargateAPI/Business/Commands/CreateAstronautDuty.cs:85 | `.Date` yields midnight of the same day. A value is its own truncation iff it is already midnight. |
| Dates.PreviousDateBeforeDate | package/exercise1/api/StargateAPI/Business/Commands/CreateAstronautDuty.cs:113 | `AddDays(-1).Date` equals midnight of the day before the truncated date, and lies strictly before it. |
| Dates.AtOrBeforeIsTotalOrder | package/exercise1/api/StargateAPI/Business/Commands/CreateAstronautDuty.cs:108 | The `DateTime` order used for sorting by start date is reflexive, total, antisymmetric and transitive. |
| Entities.FirstMatchFrom | package/exercise1/api/StargateAPI/Business/Commands/CreateAstronautDuty.cs:34-36 | `FirstOrDefault(p)` as a row index: a found index satisfies `p` and no earlier row does. None iff no row from the start index on satisfies `p`. |
| Entities.FindPerson | package/exercise1/api/StargateAPI/Business/Commands/CreateAstronautDuty.cs:34-36 | `FirstOrDefault(z => z.Name == name)`: a found index holds the name and no earlier row does. None iff no person has the name. |
| Entities.FindDetail | package/exercise1/api/StargateAPI/Business/Commands/CreateAstronautDuty.cs:76-77 | `FirstOrDefault(z => z.PersonId == id)` on summaries: the first row of that person, or None iff the person has none. |
| Entities.FindPersonIsFirstMatch | package/exercise1/api/StargateAPI/Business/Commands/CreateAstronautDuty.cs:73-74 | The first row carrying the name is exactly the row the lookup returns. |
| Entities.FindDetailIsFirstMatch | package/exercise1/api/StargateAPI/Business/Commands/CreateAstronautDuty.cs:76-77 | The first summary of the person is exactly the row the lookup returns. |
| DutyTimeline.ScopedGuard | package/exercise1/api/StargateAPI/Business/Commands/CreateAstronautDuty.cs:32-53 | Rejects with PersonNotFound iff no person has the exact name. Otherwise rejects with DuplicateDuty iff that person has a duty with the same title and the same raw start date. |
| DutyTimeline.LegacyGuard | package/exercise1/api/Business/Commands/CreateAstronautDuty.cs:30-43 | Rejects with PersonNotFound iff the name is unknown. Otherwise rejects with DuplicateDuty iff any person's duty has that title and raw start date. |
| DutyTimeline.Clashes | package/exercise1/api/StargateAPI/Business/Commands/CreateAstronautDuty.cs:44-46 | The duplicate test on one row: same title and same raw start date. A stored midnight start never clashes with a request that has a time of day. |
| DutyTimeline.LatestAmong | package/exercise1/api/StargateAPI/Business/Commands/CreateAstronautDuty.cs:106-109 | Among the first n rows: the person's duty with the greatest start, the first one among equal starts; None iff the person has no duty there. |
| DutyTimeline.LatestDuty | package/exercise1/api/StargateAPI/Business/Commands/CreateAstronautDuty.cs:106-109 | `Where(PersonId).OrderByDescending(DutyStartDate).FirstOrDefault()`: the result is the person's latest duty, the first in table order among equal starts; None iff the person has no duty. |
| DutyTimeline.LatestIsUnique | package/exercise1/api/StargateAPI/Business/Commands/CreateAstronautDuty.cs:106-109 | The latest duty is determined uniquely, so "the duty the handler closes" is well defined. |
| DutyTimeline.UpsertDetail | package/exercise1/api/StargateAPI/Business/Commands/CreateAstronautDuty.cs:79-104 | Either one summary is appended for a person who had none, or the table keeps its length and every row its owner. Other persons' summaries are unchanged. Afterwards the person has a summary with the request's rank and title. |
| DutyTimeline.CloseLatest | package/exercise1/api/StargateAPI/Business/Commands/CreateAstronautDuty.cs:106-116 | Only end dates change. Other persons' duties are unchanged, and a changed row ends at `(start − 1).Date`. |
| DutyTimeline.NewDuty | package/exercise1/api/StargateAPI/Business/Commands/CreateAstronautDuty.cs:118-125 | The new duty is open and starts at midnight of the requested day. It clashes with its own request iff the request is at midnight. |
| DutyTimeline.RecordDuty | package/exercise1/api/StargateAPI/Business/Commands/CreateAstronautDuty.cs:68-137 | The shared transition: People unchanged, at most one summary added, exactly one duty appended, open, under the new id and for the requested person. |
| DutyTimeline.ScopedRejectionImpliesLegacyRejection | package/exercise1/api/Business/Commands/CreateAstronautDuty.cs:38-42 | Whatever the person-scoped guard rejects, the legacy guard rejects with the same error. Whatever the legacy guard passes, the scoped guard passes. |
| DutyTimeline.LegacyExtraRejections | package/exercise1/api/Business/Commands/CreateAstronautDuty.cs:38-42 | The scoped guard passes and the legacy guard rejects iff the person exists, has no clash of their own, and another person's duty clashes. |
| DutyTimeline.OtherPersonsClashSeparatesGuards | package/exercise1/api/StargateAPI.Tests/Commands/CreateAstronautDutyCommandTests.cs:431-453 | Concrete case: person B may record the (title, 2024-07-20) duty person A already holds under the scoped guard. The legacy guard refuses it. |
| DutyTimeline.FirstDutyCreatesDetail | package/exercise1/api/StargateAPI/Business/Commands/CreateAstronautDuty.cs:79-93 | Without a summary, exactly one is appended: request rank and title, career start = truncated start, career end = the truncated start if Retired, else null. |
| DutyTimeline.LaterDutyUpdatesDetail | package/exercise1/api/StargateAPI/Business/Commands/CreateAstronautDuty.cs:94-104 | An existing summary gets rank and title overwritten and keeps its career start. Career end becomes `(start − 1).Date` if Retired, else is left as it was. Every other summary is unchanged. |
| DutyTimeline.RecordDutyClosesLatest | package/exercise1/api/StargateAPI/Business/Commands/CreateAstronautDuty.cs:106-127 | The person's latest duty, whatever its end date, gets end date `(start − 1).Date`. Every other duty is unchanged. Exactly one open duty is appended, with the request's rank and title and the truncated start. |
| DutyTimeline.RecordDutyTouchesOnlyThePerson | package/exercise1/api/StargateAPI/Business/Commands/CreateAstronautDuty.cs:73-129 | The People table is unchanged. Other people's summaries and duties are unchanged. The only new rows belong to the person. |
| DutyTimeline.RecordDutyLeavesOneOpenDuty | package/exercise1/api/StargateAPI/Business/Commands/CreateAstronautDuty.cs:106-127 | If the person's only open duty was their latest, afterwards they have exactly one open duty: the new one. |
| DutyTimeline.RecordDutyInOrderKeepsTimeline | package/exercise1/api/StargateAPI/Business/Commands/CreateAstronautDuty.cs:106-127 | Precondition: every open duty is its owner's latest, and every start of the person's lies strictly before midnight of the new start's day. Then that rule still holds, and the new duty is the person's latest. |
| DutyTimeline.BackdatedRecordingsLeaveTwoOpenDuties | package/exercise1/api/StargateAPI/Business/Commands/CreateAstronautDuty.cs:106-116 | Concrete case: two guarded recordings, each starting before the latest duty, leave the person with two open duties. |
| DutyTimeline.SameDayRecordingLeavesTwoOpenDuties | package/exercise1/api/StargateAPI/Business/Commands/CreateAstronautDuty.cs:106-116 | Concrete case: Pilot on day 10, then Engineer on day 10, then Commander on day 20. Both requests pass the scoped guard, and the last starts strictly later than every duty. The already-closed Pilot duty is closed again, so two duties stay open. |
| DutyTimeline.ClosedDutyEndsBeforeNewStart | package/exercise1/api/StargateAPI/Business/Commands/CreateAstronautDuty.cs:113 | Every duty a recording closes ends at `(start − 1).Date`, strictly before the new duty starts. |
| DutyTimeline.MidnightRequestRepeatedIsRejected | package/exercise1/api/StargateAPI/Business/Commands/CreateAstronautDuty.cs:44-53 | Once a midnight-dated request is recorded (stored truncated, line 123), re-sending it is rejected as a duplicate by both guards. |
| DutyTimeline.TimedRequestRepeatedIsNotDetected | package/exercise1/api/StargateAPI/Business/Commands/CreateAstronautDuty.cs:44-53 | For a request with a time of day, the guards give the same verdict after the recording as before: the stored truncated duty never matches the raw date. |
| DutyTimeline.CareerChangeScenario | package/exercise1/api/StargateAPI.Tests/Commands/CreateAstronautDutyCommandTests.cs:131-228 | Major/Pilot from 2024-01-01, then Colonel/Commander from 2024-07-01. The summary becomes Colonel/Commander with its start kept. The pilot duty ends 2024-06-30 and only the new duty is open. |
| DutyTimeline.RetirementScenario | package/exercise1/api/StargateAPI.Tests/Commands/CreateAstronautDutyCommandTests.cs:340-361 | Retiring on 2024-12-31 sets the career end to 2024-12-30 and appends an open Retired duty. |
| CareerProjection.Project | package/exercise1/api/StargateAPI/Business/Queries/GetPeople.cs:32-40 | Carries the person's id and name. The four career fields are copied from the person's (first) summary, or are all null when there is none. |
| CareerProjection.GetPeople | package/exercise1/api/StargateAPI/Business/Queries/GetPeople.cs:31-41 | One entry per person, in table order (so an empty store gives an empty list), with the person's id and name. Fields are copied from the summary when there is one, null otherwise. |
| CareerProjection.GetPersonByName | package/exercise1/api/StargateAPI/Business/Queries/GetPersonByName.cs:32-36 | None iff no person has the exact name. Otherwise the projection of the first person with that name. |
| CareerProjection.DutiesOf | package/exercise1/api/StargateAPI/Business/Queries/GetAstronautDutiesByName.cs:37-39 | Only the person's duties, and each of them exactly as often as it occurs in the table. |
| CareerProjection.InsertByStartDesc | package/exercise1/api/StargateAPI/Business/Queries/GetAstronautDutiesByName.cs:37 | Inserting one duty adds exactly that duty (as a multiset) and puts either it or the old head first. |
| CareerProjection.InsertKeepsSorted | package/exercise1/api/StargateAPI/Business/Queries/GetAstronautDutiesByName.cs:37 | Insertion into a newest-first list keeps it newest first. |
| CareerProjection.SortByStartDesc | package/exercise1/api/StargateAPI/Business/Queries/GetAstronautDutiesByName.cs:37 | `Order By DutyStartDate Desc`: the output is a permutation of the input with non-increasing start dates. |
| CareerProjection.GetAstronautDutiesByName | package/exercise1/api/StargateAPI/Business/Queries/GetAstronautDutiesByName.cs:25-45 | Faulted iff the name is unknown (null dereference at line 37). Otherwise the person is the one GetPersonByName returns, and the duties are newest first and exactly that person's duties, unchanged, each once. |
| CareerProjection.SortedSelectionHead | package/exercise1/api/StargateAPI/Business/Queries/GetAstronautDutiesByName.cs:37-41 | Any sorted permutation of a person's duties starts at the start date of that person's latest duty. |
| CareerProjection.SortedSelectionEmpty | package/exercise1/api/StargateAPI/Business/Queries/GetAstronautDutiesByName.cs:37-41 | Such a selection is empty iff the person has no duties. |
| CareerProjection.DutyHistoryStartsWithLatest | package/exercise1/api/StargateAPI/Business/Queries/GetAstronautDutiesByName.cs:37-41 | The history's first entry starts when the duty the command handler would close starts. The history is empty iff the person has no duty. |
| Identity.CreatePersonGuard | package/exercise1/api/StargateAPI/Business/Commands/CreatePerson.cs:25-36 | Rejects (NameTaken) iff a person with exactly that name exists. A function of the table only, so it changes nothing. |
| Identity.AddPerson | package/exercise1/api/StargateAPI/Business/Commands/CreatePerson.cs:54-59 | Appends exactly `Person(newId, name)`. Earlier people, summaries and duties are unchanged. Afterwards the guard rejects the name. |
| Identity.GuardedAddKeepsNamesUnique | package/exercise1/api/StargateAPI/Business/Commands/CreatePerson.cs:25-59 | Running the guard and then the append keeps names unique. |
| Identity.CreatedPersonHasNoHistory | package/exercise1/api/StargateAPI/Business/Commands/CreatePerson.cs:54-59 | After a guarded create under a fresh id, GetPersonByName returns the new id and name with null career fields. The duty history is an empty list. |
| Identity.UpdatePerson | package/exercise1/api/StargateAPI/Business/Commands/UpdatePerson.cs:25-68 | 404 "Person not found" iff the current name is unknown. 400 iff it is known and the new name is taken. Updated iff the current name is known and the new name free. Failures change nothing. On success only the first match is renamed, its id is returned, and everyone else and all summaries and duties are unchanged. |
| Identity.UpdatePersonKeepsNamesUnique | package/exercise1/api/StargateAPI/Business/Commands/UpdatePerson.cs:43-58 | A rename keeps names unique. |
| Identity.RenameToOwnNameIsRefused | package/exercise1/api/StargateAPI/Business/Commands/UpdatePerson.cs:43-56 | Renaming a person to their own name answers 400 and changes nothing: the duplicate check does not exclude the person. |
| Store.RecordDutyKeepsDutyIds | package/exercise1/api/StargateAPI/Business/Commands/CreateAstronautDuty.cs:118-127 | The appended duty's id is fresh and below the advanced counter, and existing ids are kept. |
| Store.RecordDutyKeepsOneDetail | package/exercise1/api/StargateAPI/Business/Commands/CreateAstronautDuty.cs:79-104 | Recording a duty leaves at most one summary per person. |
| Store.RecordDutyKeepsReferences | package/exercise1/api/StargateAPI/Business/Commands/CreateAstronautDuty.cs:73-127 | After a recording, every duty and summary still refers to a stored person. |
| Store.RecordDutyKeepsStoreInvariant | package/exercise1/api/StargateAPI/Business/Commands/CreateAstronautDuty.cs:68-137 | Recording under the counter's id keeps the whole store invariant, with the counter advanced. |
| Store.AddPersonKeepsStoreInvariant | package/exercise1/api/StargateAPI/Business/Commands/CreatePerson.cs:54-61 | Appending a person under the counter's id keeps the store invariant. |
| Store.UpdatePersonKeepsStoreInvariant | package/exercise1/api/StargateAPI/Business/Commands/UpdatePerson.cs:58 | A rename keeps the store invariant under the same counter. |
| Store.FreshIdHasNoHistory | package/exercise1/api/StargateAPI/Business/Commands/CreatePerson.cs:54-61 | Under the store invariant, no summary and no duty refers to the counter's next id, and no duty has it. |
| Store.CreatePersonStartsWithoutHistory | package/exercise1/api/StargateAPI/Business/Commands/CreatePerson.cs:54-59 | In a valid store, a person created under the counter's id has null career fields and an empty duty history. |
| Store.StargateContext.constructor | package/exercise1/api/StargateAPI.Tests/Helpers/TestDbContextFactory.cs:8-16 | A fresh context has empty tables, the counter at 1, and keeps the store invariant. |
| Store.StargateContext.HandleCreatePerson | package/exercise1/api/StargateAPI/Business/Commands/CreatePerson.cs:50-69 | Appends exactly one person with the name under the fresh id and returns that id. Other tables are unchanged. After the guard, names stay unique. |
| Store.StargateContext.CreatePerson | package/exercise1/api/StargateAPI/Business/Commands/CreatePerson.cs:25-69 | Pre-processor then handler. A taken name fails and changes nothing. Otherwise the person is appended under the returned fresh id and the counter advances by one. GetPersonByName then gives the new id and name with null career fields, and the duty history is empty. Names stay unique. |
| Store.StargateContext.UpdatePerson | package/exercise1/api/StargateAPI/Business/Commands/UpdatePerson.cs:25-68 | The in-place rename returns and stores exactly what `Identity.UpdatePerson` prescribes. Keeps the store invariant, the counter and name uniqueness. |
| Store.StargateContext.SaveDetail | package/exercise1/api/StargateAPI/Business/Commands/CreateAstronautDuty.cs:79-104 | The summary table becomes the upsert the lemmas above describe. Nothing else changes. |
| Store.StargateContext.CloseLatestDuty | package/exercise1/api/StargateAPI/Business/Commands/CreateAstronautDuty.cs:106-116 | The duty table becomes the one with the person's latest duty closed. Nothing else changes. |
| Store.StargateContext.HandleCreateAstronautDuty | package/exercise1/api/StargateAPI/Business/Commands/CreateAstronautDuty.cs:68-137 | The tables become `RecordDuty` of the old tables. The new duty's id is the old counter value and the counter advances by one. People are unchanged. |
| Store.StargateContext.CreateAstronautDuty | package/exercise1/api/StargateAPI/Business/Commands/CreateAstronautDuty.cs:32-137 | A scoped-guard rejection returns its error and changes nothing. A pass records the duty as `RecordDuty` prescribes and returns its id, which no earlier duty has. The counter advances by one and the store invariant is kept. |
| Store.StargateContext.CreateAstronautDutyLegacy | package/exercise1/api/Business/Commands/CreateAstronautDuty.cs:30-116 | The same pipeline with the legacy guard, and the same postcondition on a pass. |

## Left out

- **Infrastructure.** Logging, `async` and cancellation tokens, EF Core change
  tracking, Dapper and `SaveChangesAsync` are not modelled. Each handler is one
  atomic method over the in-memory tables.
- **Database ids.** The store's identity columns are modelled as one counter
  shared by all tables. `AstronautDetail.Id` is not modelled: nothing reads it.
- **In-place changes.** Tracked entities updated in place become row
  replacements in the class's sequence fields. No two handles alias one row.
- **SQL queries.** The interpolated SQL in `GetPersonByName.cs:32` and
  `GetAstronautDutiesByName.cs:31`, `:37` is modelled as exact, case-sensitive
  string equality plus a left join. Its injection risk and the database
  collation are not modelled.
- **Tie order.** The order among duties with equal start dates is left open by
  `Order By DutyStartDate Desc`. `SortByStartDesc` promises only "sorted and a
  permutation", which is all the query guarantees.
- DutyTimeline.LatestDuty: among duties with equal latest starts it picks the
  first in table order. That is what a stable `OrderByDescending` gives on the
  in-memory provider the tests use. On SQLite,
  `OrderByDescending(...).FirstOrDefaultAsync()` (`CreateAstronautDuty.cs:106-109`)
  may return either row. The choice matters: `SameDayRecordingLeavesTwoOpenDuties`
  depends on it.
- CareerProjection.GetPeople: returns the people in table order. The query at
  `GetPeople.cs:31-41` has no `OrderBy`, so the database may return another order.
- **Several summaries per person.** The left join could return one row per
  summary. The model takes a person's first summary. The store invariant
  `OneDetailPerPerson` makes this case impossible for states the handlers
  reach.
- **DateTime range limits.** The range `0001-01-01 .. 9999-12-31` and the
  exception `AddDays(-1)` throws at `DateTime.MinValue` are not modelled: day
  numbers are unbounded integers. `DateTime.Kind` is not modelled either.
- **The `Retired` title.** `DutyTitles.Retired` is taken to be the string
  `"Retired"`. `DutyTitles.cs` is not part of this model. The general lemmas
  hold for any value. The concrete scenarios depend on it only through its
  differing from the titles they use, such as "Pilot" and "Commander" in
  `CareerChangeScenario`.
- **Store.StargateContext.HandleCreateAstronautDuty** requires that the person
  exists, because the source dereferences `person.Id` unchecked
  (`CreateAstronautDuty.cs:77`). Both guards establish this. The store
  invariant is proved for the whole pipeline, `CreateAstronautDuty` and
  `CreateAstronautDutyLegacy`, rather than for the handler alone.
- **Error responses.** A guard's `BadHttpRequestException("Bad Request")` and
  its HTTP serialisation by `GlobalExceptionHandler` are modelled as a
  `GuardError` result. The `Success`, `Message` and `ResponseCode` fields of
  successful responses are not modelled.
- **Unimplemented test expectations.**
  - `GetPersonByNameQueryTests.cs:40-42` expects 404 and "Person not found" for
    an unknown name. The handler never sets these, so the model returns `None`.
  - `GetAstronautDutiesByNameQueryTests.cs:154-166` expects a null person and
    an empty list. The handler faults, so the model returns `Faulted`.
- **Queries are not class methods.** The queries are pure functions of the
  tables (`Snapshot()`). They have no state to change, so they are not methods
  of the class.
- **Other files.** `Program.cs`, the controllers, `DatabaseSeeder.cs` (which
  reads the wall clock) and the test helpers are not part of this model.
- **Concurrency.** Concurrent requests on the same person are not modelled.
