# Dose lifecycle of the medication reminder backend

This project models the dose lifecycle engine of the medication reminder
backend (`backend.py`) in Dafny and proves what its operations guarantee.

- A patient registers with one close contact and adds medications. Each
  medication is taken once a day at a fixed time.
- For every day that is touched, the schedule generator creates one PENDING
  dose record per medication.
- The patient confirms doses, which sets them TAKEN.
- A missed-dose sweep marks overdue PENDING records MISSED. For each one it
  attempts an SMS and an e-mail to the patient, plus an SMS to the close
  contact, and returns one alert line per row it selected. As written, the
  sweep's SELECT is refused by PostgreSQL, so the sweep always fails (see
  "## Findings"). `CheckMissedDoses` models the sweep with its locking clause
  corrected.

The database tables become a class, `Backend.DoseStore`, with one field per
table (`users` is a map from id to row; the others are sequences). The SERIAL
ids of `users`, `medications` and `dose_history` each have a counter. The id
of `close_contacts` is never read, so it is not modelled. Each API operation is a method of that class. Each
method is proved against value functions of the old state, and those functions
live in their own modules:

- `Generator`: `generate_daily_doses`.
- `Schedule`: the schedule query and its ordering.
- `Updates`: the ownership-filtered UPDATE and DELETE.
- `Detector`: the sweep's SELECT, its per-row updates, its alerts and its notifications.
- `Notifier`: the simulate-or-send decision of the SMS and e-mail helpers, and the message texts.
- `Registration`: the validation and inserts of `register`.
- `Text`: the pieces of Python behaviour the others need: `in` on strings,
  `int()` on a string with CPython's 4300-digit limit, and `HH:MM:SS`
  formatting.

The `Scenario` module drives one patient through a day using only the
methods' contracts.

The class invariant `DoseStore.Valid` holds between requests. It says:

- Names and e-mail addresses are unique.
- Every id is below its counter.
- Every dose record joins to a medication of the same user and carries that
  medication's time (`Backend.Consistent`).
- Dose and medication ids increase along their tables.
- There is at most one record per (medication, day).

The last fact has no database constraint behind it (`init_db.py:46-55`). The
generator's check before each insert is what keeps it.

The current day and the time of day are explicit parameters: `today` is a
day number and `now` is seconds since midnight. Whatever the transport does
with a notification is a parameter of the send helpers
(`Notifier.Transport`). The sweep returns the notifications it attempts.

`now` is the current time of day rounded up to the next whole second, with
24:00:00 read as 00:00:00. The source compares times with microseconds, and
for a whole-second dose time the comparison against the rounded-up `now`
gives the same answer at every instant but one window, described under
"## Left out".

Where the documented intent and the code differ, the model follows the code:

- **The threshold is strict.** A record is eligible only when its time is
  strictly below the time of day ten minutes ago. A dose at 08:00 is therefore
  not yet missed by a sweep at exactly 08:10:00.000000. It is missed by any
  later sweep, which the model sees as `now` = 08:10:01 or later
  (`Detector.CutoffIsStrict`, `Scenario.SweepAtTheCutoff`,
  `Scenario.SweepJustAfterTheCutoff`).
- **TAKEN and MISSED are not final.** `confirm_dose` does not filter on status,
  so confirming a MISSED dose makes it TAKEN (`Updates.ConfirmEffect`,
  `Scenario.ConfirmLate`).
- **Strings holding NUL fail.** The database driver refuses a string
  parameter that contains a NUL character with a `ValueError`, which the
  transaction handler turns into a rollback and a 500. In `register` this
  happens at the duplicate check for the name and e-mail, before any 409, and
  at the INSERTs for the other values (`Registration.DecideResponses`). In
  `add_medication` it happens for the name and dosage
  (`Backend.DoseStore.AddMedication`).
- **The cutoff wraps at midnight.** It is a time of day only, so between
  00:00 and 00:10 it lies late in the evening, and every PENDING record of the
  new day before that time is swept. This includes doses that are not yet due
  (`Detector.CutoffWrapsAtMidnight`,
  `Detector.MorningDoseSweptAtFivePastMidnight`).

## Model

| member | source | states |
|---|---|---|
| Text.Contains | backend.py:34 | Python's `in` on strings; its meaning is `Text.ContainsIffOccurs` |
| Text.ContainsIffOccurs | backend.py:34 | Python's `in` on strings holds exactly when the substring occurs at some position |
| Text.ParseInt | backend.py:157 | `int()` on a string: surrounding ASCII whitespace stripped, an optional sign, digit groups joined by single underscores, at most 4300 digits; its meaning is given by the lemmas below |
| Text.ParseIntOfNumeral | backend.py:156-159 | `int()` accepts an optional minus sign followed by at most 4300 decimal digits and yields their value |
| Text.ParseIntOfLongDigits | backend.py:156-159 | more than 4300 digits are refused, so the age gets the 400 answer |
| Text.Int32NumeralLength | backend.py:157 | the numeral of an INT-range integer has at most 10 digits, well within the limit |
| Text.ParseIntOfIntToString | backend.py:157 | `int()` reads back every integer from its decimal numeral, when the numeral is within the digit limit |
| Text.DecimalOfNatToString | backend.py:157 | the decimal numeral of a natural number has that number as its value |
| Text.FormatTime | backend.py:265 | `strftime('%H:%M:%S')` writes eight characters |
| Text.ParseFormatTime | backend.py:264-265 | the `%H:%M:%S` text of a time of day parses back to the same time |
| Notifier.SendSms | backend.py:32-46 | the outcome of `send_sms`; its meaning is `Notifier.SendSmsOutcome` |
| Notifier.SendEmail | backend.py:48-70 | the outcome of `send_email`; its meaning is `Notifier.SendEmailOutcome` |
| Notifier.SendSmsOutcome | backend.py:32-46 | `send_sms` simulates exactly when a credential holds its placeholder, whatever the transport would do; it returns None exactly when real credentials meet a failing transport; it never raises |
| Notifier.SendEmailOutcome | backend.py:48-70 | `send_email` simulates exactly when server, user or password is unset or empty; it returns None exactly on a transport failure, and "sent" on success |
| Notifier.DefaultSmsSimulates | backend.py:22-38 | with the default placeholder credentials every SMS is simulated |
| Notifier.DefaultEmailSimulates | backend.py:27-54 | with no SMTP settings every e-mail is simulated |
| Notifier.RealSidDependsOnToken | backend.py:34 | with a real account SID, whether SMS is simulated depends only on the auth token |
| Notifier.AlertMessage | backend.py:323-329 | the GUI alert line of one row; its meaning is `Notifier.AlertedContactOfAlert` |
| Notifier.RowNotifications | backend.py:315-325 | the deliveries attempted for one row; their shape is `Notifier.RowNotificationsShape` |
| Notifier.AlertedContactOfAlert | backend.py:323-329 | the alert can be read back: it names the close contact exactly when the contact number is truthy, and then it gives the contact's name |
| Notifier.RowNotificationsShape | backend.py:315-325 | per missed row: the patient's SMS first, then the patient's e-mail with the fixed subject, then the contact's SMS exactly when the contact number is truthy; there is no other e-mail |
| Records.MedicationsOf | backend.py:123-124 | the generator's SELECT returns exactly the user's medications |
| Records.FindMedication | backend.py:301 | the join finds a medication with the dose's medication id, or reports that there is none |
| Records.FindMedicationUnique | backend.py:301 | with unique ids the join finds the very medication that carries the id |
| Records.NulFree | backend.py:161 | a string the driver accepts as a query parameter has no NUL character |
| Records.StoreVarchar | init_db.py:13-18 | a VARCHAR(n) column stores a value that fits unchanged; otherwise it stores a prefix of at most n characters, or fails |
| Generator.Generate | backend.py:116-137 | the dose table after `generate_daily_doses`; its meaning is given by the lemmas below and `Backend.DoseStore.GenerateDailyDoses` |
| Generator.GenerateAppends | backend.py:126-137 | the generator only appends; existing records, of any user, are kept; each new record is PENDING, for today, for the caller, with the medication's time, and the new ids are consecutive |
| Generator.GenerateCovers | backend.py:126-137 | afterwards every medication of the user has a record for today |
| Generator.GenerateWhenCovered | backend.py:128-132 | when every medication already has today's record, nothing is inserted |
| Generator.GenerateIdempotent | backend.py:116-121 | a second run on the same day leaves the table of the first run, whatever id it starts from |
| Generator.GenerateKeepsOnePerMedicationDay | backend.py:128-137 | at most one record per (medication, day) is preserved |
| Generator.GenerateKeepsIds | backend.py:134-137 | dose ids stay increasing and below the advanced counter |
| Detector.Cutoff | backend.py:291 | the time of day ten minutes ago; its meaning is given by the three `Cutoff` lemmas below |
| Detector.Eligible | backend.py:304 | the WHERE clause of the sweep |
| Detector.Selectable | backend.py:296-308 | a dose the SELECT returns: eligible, with its medication and user found by the inner joins; see `Backend.SelectableIffEligible` |
| Detector.SelectRows | backend.py:296-309 | the rows of the SELECT; see `Detector.RowIdsOfSelectRows`, `Detector.SelectRowsEmpty` and `Detector.SelectRowsCount` |
| Detector.SweepRows | backend.py:291-309 | the rows of the SELECT of one user at one instant |
| Detector.SweepQuery | backend.py:296-308 | the SELECT under a locking clause: refused when the clause locks the nullable side of the LEFT JOIN, otherwise its rows |
| Detector.SweepQueryOutcome | backend.py:296-308 | as written the SELECT is refused on every input; with `FOR UPDATE OF dh` it returns the sweep's rows |
| Detector.WrittenSweepMissesOverdueDose | backend.py:296-308 | a patient with an overdue PENDING dose whose sweep has one row to report, while the written query returns only the error |
| Detector.MarkRows | backend.py:311-312 | the table after the per-row updates; its meaning is `Detector.MarkRowsIsMarkIds` |
| Detector.AlertFor | backend.py:323-331 | the alert line of one row |
| Detector.Alerts | backend.py:311-331 | the `missed_alerts` list; its meaning is `Detector.AlertsInRowOrder` |
| Detector.Attempts | backend.py:311-325 | the deliveries attempted for all rows; their number is `Detector.AttemptsCount` |
| Detector.ContactsOf | backend.py:303 | the join sees exactly the user's close contacts |
| Detector.ContactColumns | backend.py:303 | the LEFT JOIN gives one contact pair per contact row, or one NULL pair when there is none |
| Detector.RowsOfDose | backend.py:298-303 | a selected dose yields one row per contact pair |
| Detector.SetMissed | backend.py:312 | the per-row UPDATE keeps the table's length |
| Detector.MarkRowsIsMarkIds | backend.py:311-312 | applying the per-row updates in turn marks MISSED exactly the records whose ids were selected, each once |
| Detector.RowIdsOfSelectRows | backend.py:297-309 | the ids in the SELECT's rows are exactly the ids of the selectable doses |
| Detector.SweepMarksSelectable | backend.py:304-312 | after the sweep exactly the selectable records are MISSED and every other record, of every user, is unchanged |
| Detector.SelectRowsEmpty | backend.py:304-309 | the SELECT is empty exactly when no record is selectable |
| Detector.SecondSweepSelectsNothing | backend.py:304-312 | a second sweep at the same instant selects nothing |
| Detector.SelectRowsCount | backend.py:303 | the SELECT returns the number of contact pairs times the number of selectable doses |
| Detector.AlertsInRowOrder | backend.py:311-331 | `missed_alerts` holds exactly one alert per selected row, in selection order |
| Detector.AttemptsCount | backend.py:319-325 | the sweep attempts two deliveries per row, plus one per row with a truthy contact number |
| Detector.CutoffIsStrict | backend.py:304-307 | a record exactly at the cutoff is not eligible; one second earlier it is |
| Detector.CutoffSameDay | backend.py:291-307 | from 00:10 on, a time is before the cutoff exactly when it is more than ten minutes before now |
| Detector.CutoffWrapsAtMidnight | backend.py:291 | before 00:10 the cutoff is the previous evening's time of day |
| Detector.MorningDoseSweptAtFivePastMidnight | backend.py:291 | at 00:05 today's PENDING 08:00 dose is already eligible |
| Detector.SweepReportsNothingIffNoneSelectable | backend.py:290-333 | the alert list is empty exactly when no record is selectable, and then the table and the notifications are untouched |
| Schedule.TodayEntries | backend.py:252-258 | the rows of the schedule query before ordering; see `Schedule.TodayEntriesExact` |
| Schedule.SortByTime | backend.py:258 | `ORDER BY scheduled_time`; see `Schedule.SortByTimeSortsAndPermutes` |
| Schedule.ScheduleOf | backend.py:251-258 | the ordered schedule; see `Schedule.ScheduleOfMeaning` |
| Schedule.Rendered | backend.py:263-265 | one response item per row, in row order |
| Schedule.Render | backend.py:264-265 | the loop that rewrites each row's time as text yields the rendered items |
| Schedule.RenderedReadsBack | backend.py:263-265 | every response item carries its row's id, medicine, dosage and status, and its time text parses back to the row's time |
| Schedule.TodayEntriesExact | backend.py:252-258 | the schedule query returns exactly the caller's records for today that join to a medication |
| Schedule.InsertByTimeMultiset | backend.py:258 | inserting into the ordering loses and adds no entry |
| Schedule.InsertByTimeSorted | backend.py:258 | inserting into a time-ordered list keeps it ordered |
| Schedule.SortByTimeSortsAndPermutes | backend.py:258 | `ORDER BY scheduled_time` yields the same entries, ascending by time |
| Schedule.ScheduleOfMeaning | backend.py:251-262 | the returned schedule is ascending by time, is a permutation of the query's rows, and holds exactly the caller's entries for today |
| Updates.Confirm | backend.py:277-280 | the table after `confirm_dose`'s UPDATE; its meaning is `Updates.ConfirmEffect` |
| Updates.ConfirmCount | backend.py:277-280 | the UPDATE's row count; see `Updates.ConfirmCountAtMostOne` |
| Updates.DropDosesOf | init_db.py:50 | the `ON DELETE CASCADE` from a medication to its records; its meaning is `Updates.DropDosesOfExact` |
| Updates.ConfirmEffect | backend.py:277-280 | only the record with that id and owner changes; it becomes TAKEN with the new stamp whatever its status was |
| Updates.ConfirmNoMatch | backend.py:277-281 | a zero-row match changes nothing |
| Updates.ConfirmOtherUsersDose | backend.py:278 | confirming another user's dose id leaves the table unchanged |
| Updates.ConfirmCountAtMostOne | backend.py:278 | with unique ids the UPDATE matches at most one row, and one exactly when the caller owns that id |
| Updates.RemoveOwned | backend.py:239 | the DELETE removes exactly the medications with that id owned by the caller |
| Updates.DropDosesOfExact | init_db.py:50 | the cascade removes every record of the medication, past and present, and keeps all the others |
| Updates.DropDosesOfKeepsIds | backend.py:238-239 | the cascade keeps dose ids increasing |
| Updates.DropDosesOfKeepsOnePerMedicationDay | backend.py:238-239 | the cascade keeps at most one record per (medication, day) |
| Updates.RemoveOwnedKeepsIds | backend.py:239 | the DELETE keeps medication ids increasing |
| Registration.Decide | backend.py:152-176 | the response to one registration, with the checks in the source's order; its meaning is given by the lemmas below |
| Registration.Insert | backend.py:165-176 | the two INSERTs either both succeed or the request fails as a storage error |
| Registration.InsertValues | backend.py:165-176 | an accepted insert stores the given age, non-empty values that are prefixes of the submitted ones, and a name and e-mail not yet taken; no submitted value holds a NUL |
| Registration.DecideResponses | backend.py:152-163 | 400 "all fields required" exactly when a field is missing or empty; 400 for the age exactly when `int()` rejects it; 409 exactly when the name and e-mail are free of NUL and one of them is taken; 500 when the name or e-mail holds a NUL, and when another value does and the name and e-mail are free |
| Registration.DecideAccepts | backend.py:152-178 | a complete form with a valid age, NUL-free values that fit and a fresh name and e-mail is accepted with exactly the submitted values |
| Registration.AcceptedValues | backend.py:156-176 | an accepted form stores the parsed age and the submitted values, cut only by trailing spaces past the column width; none of them held a NUL |
| Registration.AcceptKeepsUnique | backend.py:161-170 | accepting a form keeps names and e-mail addresses unique |
| Registration.SameFormTwice | backend.py:161-163 | the same form submitted again is never accepted; it gets 409 when the name was stored uncut |
| Backend.ConsistentJoin | backend.py:256 | in a consistent store every record joins to its own medication, which has the record's user and time |
| Backend.SelectableIffEligible | backend.py:301-304 | in a consistent store, for a registered user, the sweep selects a record exactly when it matches the WHERE clause |
| Backend.GenerateKeepsConsistent | backend.py:126-137 | the generator keeps the store consistent and its ids below the advanced counter |
| Backend.SameSlotsKeepConsistent | backend.py:278 | status updates keep the store consistent and introduce no id |
| Backend.DeleteKeepsConsistent | backend.py:238-239 | deleting an owned medication with its cascade keeps the store consistent |
| Backend.AppendMedicationKeepsConsistent | backend.py:205-208 | inserting a medication with a fresh id keeps the store consistent |
| Backend.ScheduleListsEveryMedication | backend.py:251-262 | after generation every medication of the caller appears on today's schedule with its name, dosage and time |
| Backend.ScheduleShowsOnlyOwnMedications | backend.py:252-258 | every schedule entry is one of the caller's medications at its time |
| Backend.SweepStep | backend.py:311-331 | one more row appends its update, its notifications and its alert after those of the earlier rows |
| Backend.SweepOutcome | backend.py:290-333 | on a consistent store the sweep marks MISSED exactly the caller's eligible records, keeps the store consistent, and introduces no id |
| Backend.MarkAndNotify | backend.py:311-331 | the per-row loop produces the marked table, the alerts and the attempted notifications of the selected rows |
| Backend.DoseStore.constructor | init_db.py:13-55 | empty tables whose SERIAL counters start at 1 satisfy the invariant |
| Backend.DoseStore.Register | backend.py:142-178 | the response is the one the validation decides; on acceptance exactly the user row and its one close contact are added; otherwise nothing changes |
| Backend.DoseStore.GenerateDailyDoses | backend.py:116-137 | the loop leaves the table the generator function gives, advances the counter by the number of inserts, and keeps the invariant |
| Backend.DoseStore.AddMedication | backend.py:198-211 | success exactly when the user exists and the name and dosage are free of NUL and fit; then the medication is appended, today's records are generated and the dose counter advances by the number of inserts; otherwise the request is rolled back |
| Backend.DoseStore.GetSchedule | backend.py:246-266 | generates and advances the dose counter by the number of inserts, then returns the time-ordered schedule that lists every medication of the caller and nothing else, with its times rendered as text |
| Backend.DoseStore.ConfirmDose | backend.py:270-281 | the table becomes the confirmed table; at most one row matches; zero matches change nothing |
| Backend.DoseStore.DeleteMedication | backend.py:230-242 | deleted exactly when the caller owns the medication, together with all its records; otherwise 404 and nothing changes |
| Backend.DoseStore.CheckMissedDoses | backend.py:285-333 | with the locking clause corrected: exactly the caller's eligible records become MISSED and nothing else changes; the alerts and attempted notifications are those of the selected rows, in order |
| Backend.DoseStore.CheckMissedDosesLocking | backend.py:285-333 | the response is 500 exactly when the locking clause locks the nullable side of the LEFT JOIN, and then nothing is marked or sent; otherwise it is the corrected sweep |
| Scenario.PatientFormAccepted | backend.py:152-178 | a well-formed first registration is accepted |
| Scenario.SweepAtTheCutoff | backend.py:304-307 | a dose at 08:00 is not yet missed at 08:10:00 |
| Scenario.SweepAsWritten | backend.py:296-308 | with the locking clause as written, the sweep at 08:10:01 fails and the overdue dose stays PENDING |
| Scenario.SweepJustAfterTheCutoff | backend.py:304-312 | a dose at 08:00 is marked MISSED by the corrected sweep at 08:10:01 |
| Scenario.ConfirmLate | backend.py:277-280 | confirming a MISSED dose makes it TAKEN |

## Left out

- `gui.py`: the tkinter window, its HTTP calls and its 60-second polling loop are user interface.
- `database.py`: the connection pool and the environment loading are I/O plumbing. The environment's values appear only as `SmsConfig` and `EmailConfig` parameters.
- Flask routing, JSON bodies and the session lookup: every method takes the logged-in user's id. The 401 answer for a missing session is not modelled.
- A JSON body without the `medicine_name`, `dosage` or `time` key fails outside the transaction handler. `AddMedication` takes the three values as given.
- The `time` string of `add_medication` is parsed by PostgreSQL's TIME input, which is not part of this model. `AddMedication` receives the parsed time of day, so a malformed time, or one holding a NUL, is not among its failures.
- Password hashing is a foreign call. The password is only checked for presence.
- `login` checks a password hash, which is not modelled. The generator it runs is `GenerateDailyDoses`.
- `get_all_medications` is a plain read outside the dose lifecycle.
- The Twilio and SMTP transports: what they do is the `Transport` parameter. The printed simulation messages are console output.
- `SKIP LOCKED`, concurrent sweeps and transaction isolation: the model is sequential. Each method is one transaction that either completes or leaves the state unchanged. Whether PostgreSQL accepts the locking clause is modelled (`Detector.SweepQuery`); which rows it would skip is not.
- Wall-clock time: `date.today()` and `datetime.now()` become the `today` and `now` parameters. `now` is the time of day rounded up to whole seconds. This matches the source's microsecond comparison except in the last fraction of a second before 00:10:00. There the source's cutoff is 23:59:59 plus a fraction and it sweeps every PENDING record of the day, while the model's cutoff is 00:00:00 and it sweeps none.
- `CURRENT_TIMESTAMP`: the stamp written by `confirm_dose` is the `stamp` parameter.
- Row order without `ORDER BY`: the sweep's rows and the generator's medications are taken in table order, and the join gives contacts in table order.
- Ties under `ORDER BY scheduled_time`: PostgreSQL leaves the order of rows with the same time unspecified. `Schedule.SortByTime` keeps them in table order. What the source promises, ascending times and the same rows, is proved for this order (`Schedule.ScheduleOfMeaning`); the order among equal times is one choice of many.
- `Backend.DoseStore.Register`: a failed insert does not consume a sequence value here, although PostgreSQL may. Gaps in user ids change no result.
- `Text.ParseInt`: Python's `int()` is modelled on ASCII text only. Non-ASCII digits and Unicode whitespace are not. The 4300-digit limit is that of CPython 3.11 and later; earlier interpreters accept longer numerals.
- `Registration.Insert`: an age outside the INT range and an over-long value are both treated as a rolled-back storage error. PostgreSQL's exact error is not modelled.

## Findings

| source | as written | input that shows it | evidently intended | confidence | as-written member | corrected member |
|---|---|---|---|---|---|---|
| backend.py:296-308 | the sweep's SELECT ends in `FOR UPDATE SKIP LOCKED` with no `OF`, so it asks for row locks on `close_contacts`, the nullable side of the LEFT JOIN; PostgreSQL refuses this when planning the query, the handler rolls back and answers 500, and no dose is ever marked MISSED or reported | a patient without a close contact and a PENDING 08:00 dose, swept at 08:10:01 (the sweep has one row to report; the query returns the error) | `FOR UPDATE OF dh SKIP LOCKED`: lock only the dose records, then mark and report the overdue doses | high; not executed | Detector.WrittenSweepMissesOverdueDose | Backend.DoseStore.CheckMissedDoses |
