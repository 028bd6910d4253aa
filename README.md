# Website change monitor: a verified model of the change-detection engine

This project models the change-detection engine of a small website monitor
(`src/services/websiteMonitor.js`). Every minute a scheduler calls
`checkWebsiteChanges`. It selects the registered websites whose check interval has
passed and fetches each one with `fetchAndHash`. That function makes up to
`MAX_RETRIES + 1 = 4` requests, waiting 1, 2 and 3 seconds between them, and
returns the SHA-256 digest of the first ok body. The engine then compares that
digest with the stored `last_hash`:

- Changed: it inserts a row into the append-only `changes` table, then updates the
  site's `last_hash` and `last_checked`, then sends a change email.
- Unchanged: it updates `last_checked` only.
- Failed (the fetch threw after its retries): it writes nothing and sends an error
  email.

`addWebsiteToMonitor` fetches a site first. Only if that fetch succeeds does it
insert the row, with the fetched digest as its baseline and a check interval of
1 hour by default. `sendEmail` is best effort. It does nothing when the
`EMAIL_FROM`, `EMAIL_TO` or `EMAIL_APP_PASSWORD` setting is missing, and it
catches transport errors.

Modules, leaves first:

- `wrappers.dfy`, module `Wrappers`: `Option` (nullable columns, `undefined`
  arguments) and `Result` (a value, or the error an operation throws).
- `fetcher.dfy`, module `Fetcher`: `fetchAndHash` as a recursive function over its
  `retries` counter, like the source. The network is an oracle `Network = nat -> Attempt`
  that answers each numbered request with a response (status and body) or a thrown
  error. SHA-256 is a function value `hash: Body -> Digest`. The waits are recorded
  in the result instead of slept.
- `schedule.dfy`, module `Schedule`: the `websites` row, the due predicate
  on integer seconds, and the selection of due rows. A row is due when
  `check_frequency` is not negative and `now >= last_checked + check_frequency * 3600`.
  The query builds the deadline from the text `'+' || check_frequency || ' hours'`.
  For a negative interval that text is a modifier such as `+-2 hours`, which SQLite
  rejects, so the deadline and the comparison are `NULL` and the row is never selected.
- `notifier.dfy`, module `Notifier`: the email settings, the three messages, and
  `sendEmail` as a total function that returns what became of the call.
- `evaluator.dfy`, module `Evaluator`: the per-site transition (`Step`), the tick
  loop (`Tick`) and registration (`Register`) as functions on the monitor's state.
  It also holds the invariant `Consistent` and the lemmas about all of them.
- `monitor.dfy`, module `Monitor`: class `WebsiteMonitor`. It holds the two tables,
  the clock, the notice log and the next row id. Its methods perform the source's
  writes in place, one statement at a time. Each method is proved to reach the
  state the `Evaluator` functions describe and to keep `Valid()`.

Points of the code that a reader may not expect:

- On a failed fetch the code leaves `last_checked` as it is
  (`src/services/websiteMonitor.js:133-136`). A failing site therefore stays due and
  is fetched again, four requests each time, on every scheduler run.
  `FailingSiteStaysDue` proves this.
- The change row insert and the digest update are two separate writes with no
  transaction around them (`src/services/websiteMonitor.js:114-122`). `CheckWebsite`
  calls `InsertChange` and then `UpdateHash`, and each of these keeps `Valid()` on
  its own. So the state between them holds the new change row while the row still
  has the old digest.
- The default check interval of `addWebsiteToMonitor` is 1 hour, as in its code
  (`src/services/websiteMonitor.js:82`). Its doc comment (line 80) and the column
  default of `check_frequency` (`src/services/database.js:18`) say 24.
- A row with no stored digest (SQL `NULL`) compares as changed (`!==`), and its change
  row holds `old_hash = NULL`. `Classify` keeps this case. In this core only
  registration inserts rows, and always with a digest, so the invariant `Consistent`
  states that every row has a baseline.
- `addWebsiteToMonitor` stores any interval it is given, a negative one included
  (`src/services/websiteMonitor.js:86-89`). Such a row is never selected again
  (`NegativeIntervalNeverSelected`).

## Model

| member | source | states |
|---|---|---|
| `Fetcher.FetchAndHash` | src/services/websiteMonitor.js:38-52 | requests are made from attempt `retries` on, at least one and at most `MAX_RETRIES + 1 - retries`; every request before the last failed; it succeeds exactly when the last request got an ok (2xx) response, and then returns the digest of that body; it fails only after its whole budget, with the error of the last request (an HTTP status error or the thrown error); wait k is `1000 * k` ms |
| `Fetcher.RetriesExhausted` | src/services/websiteMonitor.js:38-52 | when all 4 requests fail, whether by a thrown error or a non-ok status, exactly 4 are made, the waits are 1000, 2000 and 3000 ms, and the error of the 4th is thrown |
| `Fetcher.FirstSuccessReturnsDigest` | src/services/websiteMonitor.js:39-43 | the first ok response, at attempt k, gives the result `hash(body)` after exactly k + 1 requests, so no further request is made |
| `Fetcher.TotalDelayAtMostBudget` | src/services/websiteMonitor.js:45-48 | the waits of a call started at `retries` add up to at most those of a call whose every retry happens |
| `Fetcher.TotalDelayAtMostSixSeconds` | src/services/websiteMonitor.js:45-48 | one `fetchAndHash(url)` waits at most 6000 ms in all |
| `Fetcher.FetchDeterministic` | src/services/websiteMonitor.js:38-52 | two networks that answer the requests a call can make in the same way give the same digest or error, request count and waits (the fetch and the digest are deterministic) |
| `Schedule.IsDue` | src/services/websiteMonitor.js:101 | a due row has a non-negative interval and was last checked no later than now; a row with a negative interval is never due, because its deadline is `NULL` |
| `Schedule.DueWebsites` | src/services/websiteMonitor.js:99-102 | the selection holds exactly the due rows (non-negative interval, deadline passed), each as many times as it is in the table, and no row that is not due |
| `Schedule.NegativeIntervalNeverSelected` | src/services/websiteMonitor.js:99-102 | a row stored with a negative interval is not selected at any time |
| `Schedule.DueWebsitesOnce` | src/services/websiteMonitor.js:99-108 | in a table with unique ids the selected rows have unique ids, so the loop visits each site at most once |
| `Schedule.HourlyDeadline` | src/services/websiteMonitor.js:101 | a row with a 1-hour interval is due 61 minutes after its last check and not due after 59 minutes |
| `Notifier.Dispatch` | src/services/websiteMonitor.js:55-75 | the notice of one `sendEmail` call keeps its site and message; nothing is sent exactly when a setting is missing; it is delivered exactly when all settings are present and the transport accepts; it is a reported transport failure exactly when all settings are present and the transport throws |
| `Notifier.DispatchBestEffort` | src/services/websiteMonitor.js:55-75 | without all settings the outcome is the same whatever the transport does; with them the transport alone decides between delivered and a caught, reported failure |
| `Evaluator.Classify` | src/services/websiteMonitor.js:111-113 | the check fails exactly when the fetch threw, with its error; it is changed exactly when the fetch returned a digest other than the stored one (a stored `NULL` included), carrying that digest; it is unchanged exactly when the fetched digest equals the stored one |
| `Evaluator.RecordChange` | src/services/websiteMonitor.js:119-122 | the `UPDATE` keeps the table's length and every row's id, url and interval; the row with the id gets the new digest and check time; every other row is unchanged |
| `Evaluator.RecordCheck` | src/services/websiteMonitor.js:127-130 | the `UPDATE` keeps the table's length and every row's id, url, digest and interval; the row with the id gets the new check time; every other row is unchanged |
| `Evaluator.Step` | src/services/websiteMonitor.js:109-136 | one pass of the loop body keeps the table's length, adds one change row exactly when the site changed, and sends one notice exactly when it changed or failed |
| `Evaluator.StepAppends` | src/services/websiteMonitor.js:109-136 | a pass of the loop body only appends: on a change, the change row numbered after the last with the digest read and the new one; on a change or failure, the notice with the message for the outcome; a failure writes no row |
| `Evaluator.StepRows` | src/services/websiteMonitor.js:113-132 | checking one site writes only the row with that site's id, turning it into the row after a check with that outcome, and keeps the table's length and ids |
| `Evaluator.Tick` | src/services/websiteMonitor.js:108-137 | the loop over the selected rows keeps the table's length and adds at most one change row and at most one notice per selected row |
| `Evaluator.TickRows` | src/services/websiteMonitor.js:108-137 | for any sequence of distinct rows of the table, the loop turns each visited row into that row after its own check and leaves every other row untouched |
| `Evaluator.TickChanges` | src/services/websiteMonitor.js:113-117 | the loop only appends to `changes`: one row per site whose check found a new digest, in loop order, numbered on from the last row, holding the site id, the digest read before the check and the new digest |
| `Evaluator.TickNotices` | src/services/websiteMonitor.js:108-137 | the loop sends exactly one notice per site whose check changed (change message) or failed (error message with its error), in loop order, and none for unchanged sites |
| `Evaluator.CheckRows` | src/services/websiteMonitor.js:95-137 | after `checkWebsiteChanges` at `now`, every due row is that row after its own check and every row that is not due is untouched |
| `Evaluator.CheckRecordsChanges` | src/services/websiteMonitor.js:108-122 | a change row is appended for a site exactly when it is due, its fetch succeeded and the digest differs from the stored one, with `old_hash` the stored digest and `new_hash` the fetched one; earlier change rows are kept |
| `Evaluator.LastCheckedNeverDecreases` | src/services/websiteMonitor.js:119-130 | a tick never moves a row's `last_checked` backwards, and never past the tick's time |
| `Evaluator.FailingSiteStaysDue` | src/services/websiteMonitor.js:133-136 | a due site whose fetch fails is left exactly as it was, so it is due again at every later time |
| `Evaluator.RecheckIsUnchanged` | src/services/websiteMonitor.js:113-131 | checking a site again when the network serves the same content finds it unchanged |
| `Evaluator.SecondTickRecordsNoChange` | src/services/websiteMonitor.js:113-131 | after a tick in which a site's fetch succeeded, a second tick over the same content does not count it as changed, and none of the change rows the second tick appends refers to that site |
| `Evaluator.NoChangeRowFor` | src/services/websiteMonitor.js:113-117 | a row that is not among the changed sites of a tick gets none of the change rows the tick appends |
| `Evaluator.CheckRowFields` | src/services/websiteMonitor.js:119-130 | a tick keeps every row's id and baseline and either keeps its check time or sets it to the tick's time |
| `Evaluator.CheckKeepsRows` | src/services/websiteMonitor.js:108-137 | after a tick the table has the same ids, still unique and positive, every row still has a baseline, and no check time is later than the tick |
| `Evaluator.CheckPreservesConsistent` | src/services/websiteMonitor.js:95-137 | a tick at a time no earlier than the clock keeps the whole state consistent: unique row ids, baselines present, change rows numbered in order, referring to existing sites and not detected in the future |
| `Evaluator.Register` | src/services/websiteMonitor.js:82-93 | registration fails exactly when its fetch throws, with that error; on success the table grows by exactly one row after the old ones, the changes table is untouched, and exactly one notice is sent |
| `Evaluator.RegisterSetsBaseline` | src/services/websiteMonitor.js:82-93 | registration succeeds exactly when its fetch does, and otherwise throws the fetch error and writes nothing; on success it appends exactly one row with the next id, the url, the fetched digest as baseline, `last_checked = now`, and the interval given or 1 when none is; it sends the confirmation notice and adds no change row; the row is not due before its interval has passed and never when the interval is negative; a first check over the same content finds it unchanged; the state stays consistent |
| `Evaluator.RegisterScenario` | src/services/websiteMonitor.js:82-93 | registering a page that serves "A" with a 24-hour interval stores the digest of "A" and sends the confirmation notice |
| `Evaluator.ChangeScenario` | src/services/websiteMonitor.js:113-125 | a day later the page serves "B": one change row from the digest of "A" to that of "B", the row stores the new digest and check time, and one change notice is sent |
| `Evaluator.SameContentScenario` | src/services/websiteMonitor.js:126-131 | another day later the page still serves "B": only the check time moves; no change row and no notice |
| `Monitor.WebsiteMonitor.constructor` | src/services/database.js:12-29 | a monitor starts with empty `websites` and `changes` tables, no notices, and a consistent state |
| `Monitor.WebsiteMonitor.SendEmail` | src/services/websiteMonitor.js:55-75 | appends exactly the notice of this call and may change nothing else (no table, no clock); there is no error result to raise |
| `Monitor.WebsiteMonitor.InsertChange` | src/services/websiteMonitor.js:114-117 | appends one change row, numbered after the last, stamped with the clock, and keeps the state valid |
| `Monitor.WebsiteMonitor.UpdateHash` | src/services/websiteMonitor.js:119-122 | sets `last_hash` and `last_checked` of the row with the given id and changes no other row |
| `Monitor.WebsiteMonitor.UpdateChecked` | src/services/websiteMonitor.js:127-130 | sets `last_checked` of the row with the given id and changes no other row |
| `Monitor.WebsiteMonitor.CheckWebsite` | src/services/websiteMonitor.js:109-136 | the per-site body of the loop returns the outcome of the fetch and comparison and reaches exactly the state of `Step`: changed, unchanged or failed |
| `Monitor.WebsiteMonitor.CheckWebsiteChanges` | src/services/websiteMonitor.js:95-138 | selects the due rows, checks each in turn, and ends in exactly the state of `Tick` over them (so every lemma about `Tick` above holds of it); the clock is now the tick's time and the state stays valid |
| `Monitor.WebsiteMonitor.AddWebsiteToMonitor` | src/services/websiteMonitor.js:82-93 | on a failed fetch returns the error and leaves the tables, the notices and the id counter as they were; on success reaches exactly the state of `Register` and assigns the next id |

## Left out

- The real network (`node-fetch`, and `fetchWithTimeout` with its `AbortController`)
  is replaced by the attempt oracle. A 30-second timeout is a thrown attempt. A body
  that cannot be read (`response.text()` rejecting) is not modelled: an ok response
  always carries its body.
- SHA-256 (Node's `crypto`) is an uninterpreted function value. Its hexadecimal
  encoding and its collision resistance are not modelled.
- The retry waits are recorded as numbers. They do not advance the model's clock.
- Time is whole seconds, not SQL datetime strings. The source reads
  `datetime('now')` again at each statement, after the fetches of earlier sites. The
  model stamps every write of a tick with the tick's time.
- Storage never fails in the model. If a `db.run` throws inside the loop, the source
  catches it and sends an error email, possibly after the change row was already
  inserted. That path is not modelled. Neither is a failing `getDatabase`.
- DueWebsites: SQLite's `datetime` gives `NULL` for a deadline after the year 9999,
  so such a row is never selected. The model's time is unbounded integer seconds
  with no calendar, so it selects that row once its deadline has passed.
- `check_frequency` values that are not integers (null, strings or fractions from the
  request body) are not modelled. The argument is an optional integer.
- Email subject, text, HTML, `toLocaleString` timestamps and all console logging are
  left out. A notice records the site, the message kind (with the fetch error for
  error emails) and what became of the delivery.
- The `node-cron` trigger and overlapping scheduler runs (src/index.js) are not
  modelled. Ticks are sequential calls.
- The HTTP handlers (src/api/server.js) and the database set-up
  (src/services/database.js) are not part of this model. The schema supplies only
  the row shapes.
