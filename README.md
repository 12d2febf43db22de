# Respiratory monitoring front end — verified model

This project models the logic of the browser front end of a remote
respiratory and vital-sign monitoring platform. Doctors, patients and family
members each see their own pages. Each page is a thin layer over a REST
backend and a message broker, but a number of small rules decide what it
shows. This project states those rules in Dafny and proves properties about
them:

- **Breathing pattern.** Each sensor record gets a breathing phase (inhale,
  hold, exhale or rest). Consecutive points with the same phase are grouped
  into bands, and the mean baseline is drawn as a reference line.
- **Live monitoring.** A buffer keeps the 50 most recent readings while
  monitoring is on. Starting or stopping clears it.
- **Sessions.** The sessions table exports a CSV file (fields escaped as
  section 2 of RFC 4180 describes), draws progress bars, sorts sessions
  newest first and shows global figures. Other pages cover the printable
  report of one session, the comparison of two sessions and the summary
  chart of all sessions.
- **Patient's own page.** The latest vital signs are classified against
  thresholds, and the worst level picks the advice shown. The page also
  shows the latest record, the latest session and the trend of the last
  150 records.
- **Doctor's dashboard.** It shows the relative time of the latest reading,
  the latest record over all sessions, the overview figures, the five
  patients with the newest readings, and where other roles are redirected.
- **Stores.** The device, patient and family stores each hold a loaded list,
  the list the search box lets through, a search term, a loading flag and a
  total. A separate store holds one patient's sessions.
- **Widgets.** These are the multi-select, the expandable table and the
  family member's patient grid (initials and query matching).
- **Forms and permissions.** The device, family and doctor forms each have
  validation rules, reset values and submit requests. A table maps each role
  to its permissions.

Where the source changes state in place, the model does too. The stores,
the monitoring page, the expandable table, the comparison dialog and the
three form modals are classes, and their methods are specified against
functions of the old state. Loops of the source (the global latest record,
the distinct patient count, the map of recent patients, the CSV rows and the
band segmentation) are methods with loop invariants. Everything else is
functions and lemmas.

Some things the model does not compute but takes as parameters:

- the outcome of each awaited service call (`Ok(value)` or `Failed`);
- the current time and the bounds of the current day;
- the e-mail check of the validation library;
- the text of numbers with two decimals.

## Model

| member | source | states |
|---|---|---|
| BreathingPattern.DerivePhaseCases | src/modules/Monitoring/components/breathing-pattern-chart.tsx:52-65 | a `resp2Positive` of true gives exhale and false gives inhale whatever the magnitudes; without it, rest iff the magnitude is below 0.05, hold iff it is in [0.05, 0.15), inhale/exhale iff it is not below 0.15 and the deviation is ≥ 0 / not ≥ 0; exactly one phase each time |
| BreathingPattern.NaNAirflowIsExhale | src/modules/Monitoring/components/breathing-pattern-chart.tsx:53-64 | with no digital channel and no stored difference, a NaN airflow fails every comparison and the record reads as exhaling |
| BreathingPattern.ToPoints | src/modules/Monitoring/components/breathing-pattern-chart.tsx:79-84 | one point per record in input order, with the record's time, the airflow or 0, the baseline as stored, and the derived phase |
| BreathingPattern.CloseRun | src/modules/Monitoring/components/breathing-pattern-chart.tsx:197-204 | closing the open run at a phase change extends a cover of the points by maximal one-phase runs to the points scanned so far |
| BreathingPattern.RunsCount | src/modules/Monitoring/components/breathing-pattern-chart.tsx:197-205 | a cover by maximal runs has exactly one run more than there are phase changes |
| BreathingPattern.ScanStep | src/modules/Monitoring/components/breathing-pattern-chart.tsx:197-205 | one loop step keeps the scan state: on an unchanged phase the open run grows by a point; on a change the open run is closed and drawn and a new run opens at the current point |
| BreathingPattern.AddBand | src/modules/Monitoring/components/breathing-pattern-chart.tsx:198-202 | pushing the band of a run keeps the bands in step with the runs, each band spanning the times of its run's first and last points with the run's phase |
| BreathingPattern.CloseLast | src/modules/Monitoring/components/breathing-pattern-chart.tsx:206-210 | the final push completes the cover, the last band ending at the last point, with one run more than there are phase changes |
| BreathingPattern.PhaseBands | src/modules/Monitoring/components/breathing-pattern-chart.tsx:189-211 | no bands when they are off or there are fewer than two points; otherwise the bands are the maximal runs of one phase: contiguous, starting at point 0, ending at the last point, each point with its band's phase, neighbours of different phases, each band spanning the times of its run's first and last points, and 1 + (number of phase changes) of them |
| BreathingPattern.AvgBaseline | src/modules/Monitoring/components/breathing-pattern-chart.tsx:214-220 | the reference line is absent exactly when no point has a baseline |
| BreathingPattern.BaselinesFrom | src/modules/Monitoring/components/breathing-pattern-chart.tsx:215-217 | every averaged baseline is the baseline of some point |
| BreathingPattern.BaselinesHas | src/modules/Monitoring/components/breathing-pattern-chart.tsx:215-217 | every point's baseline, NaN and infinities included, is averaged |
| BreathingPattern.AvgBaselineNaN | src/modules/Monitoring/components/breathing-pattern-chart.tsx:214-220 | one NaN baseline makes the reference line NaN |
| BreathingPattern.AvgBaselineWithin | src/modules/Monitoring/components/breathing-pattern-chart.tsx:214-220 | when every baseline is finite and within [lo, hi], the mean is finite and within [lo, hi] |
| Monitoring.KeepLast | src/modules/Monitoring/monitoring.tsx:46 | `slice(-50)` keeps the last min(n, length) elements, a suffix of the list |
| Monitoring.PushReading | src/modules/Monitoring/monitoring.tsx:43-47 | after a tick the buffer holds 1..50 readings, the new one last, preceded by the newest of the old ones |
| Monitoring.PushAllKeepsLast | src/modules/Monitoring/monitoring.tsx:43-47 | after any number of ticks the buffer is the last 50 of everything received since it was cleared |
| Monitoring.KeepLastAppend | src/modules/Monitoring/monitoring.tsx:44-46 | keeping the last 50, appending, and keeping the last 50 again is keeping the last 50 of everything |
| Monitoring.MonitoringPage.constructor | src/modules/Monitoring/monitoring.tsx:19-21 | the page starts stopped, disconnected and with an empty buffer |
| Monitoring.MonitoringPage.StartMonitoring | src/modules/Monitoring/monitoring.tsx:58-61 | starting turns monitoring and the connection on and empties the buffer |
| Monitoring.MonitoringPage.StopMonitoring | src/modules/Monitoring/monitoring.tsx:63-66 | stopping turns monitoring and the connection off and empties the buffer |
| Monitoring.MonitoringPage.SyncConnection | src/modules/Monitoring/monitoring.tsx:24-28 | the effect on `isMonitoring` makes the connection flag follow it and changes nothing else |
| Monitoring.MonitoringPage.Tick | src/modules/Monitoring/monitoring.tsx:29-48 | a timer tick while monitoring appends the reading and keeps the last 50, keeping the page's invariant |
| Monitoring.MonitoringPage.LatestReading | src/modules/Monitoring/monitoring.tsx:68 | the newest reading, absent exactly when the buffer is empty |
| Records.LatestRecord | src/modules/Session/components/sessions-table.tsx:312-317 | the `reduce` yields nothing exactly for no records, otherwise a record with the latest timestamp, the first of them among equals |
| Records.LatestStep | src/modules/Session/components/sessions-table.tsx:313-316 | one step of the `reduce`: the new record becomes the running latest when there is none or it is strictly later, and the result is again the first record with the latest time |
| Records.FiniteValues | src/modules/Session/components/sessions-table.tsx:52-59 | `arrNums` keeps at most one value per record |
| Records.FiniteValuesMembers | src/modules/Session/components/sessions-table.tsx:52-59 | a value is kept exactly when some record holds it as a finite number |
| Records.FiniteValuesIgnoresNonFinite | src/modules/Session/components/sessions-table.tsx:58 | a record whose value is missing, NaN or infinite contributes nothing |
| Records.MinOf | src/modules/Session/components/sessions-table.tsx:67 | `Math.min(...vals)` is one of the values and no value is smaller |
| Records.MaxOf | src/modules/Session/components/sessions-table.tsx:68 | `Math.max(...vals)` is one of the values and no value is larger |
| Records.MeanWithin | src/modules/Session/components/sessions-table.tsx:65-66 | the average of values within [lo, hi] is within [lo, hi] |
| Records.MeanBetween | src/modules/Session/components/sessions-table.tsx:65-68 | the average lies between the minimum and the maximum |
| Records.ComputeStats | src/modules/Session/components/sessions-table.tsx:60-74 | all three figures are 0 when no value is finite; otherwise min ≤ avg ≤ max, with min and max values of the records |
| Records.FlattenLength | src/modules/Session/components/sessions-table.tsx:229 | the flattened records number exactly the summed record counts |
| Records.FlattenMembers | src/modules/MeData/me.page.tsx:51-53 | a record is in the flattened list exactly when it is a record of some session |
| Records.PatientIdsMembers | src/modules/Session/components/sessions-table.tsx:214 | an id is counted exactly when it is non-empty and is some session's patient id |
| Records.PatientIdsBound | src/modules/Session/components/sessions-table.tsx:214 | there are never more distinct patients than sessions |
| Records.CountStartedWithin | src/modules/Session/components/sessions-table.tsx:219-222 | the count is at most the number of sessions, 0 exactly when none started in the window, all exactly when all did; the dashboard's `countTodaySessions` (src/modules/Dashboard/dashboard-page.tsx:60-69) is the same inclusive-window count, with the day's bounds as parameters |
| Records.CountStartedWithinAppend | src/modules/Session/components/sessions-table.tsx:219-222 | counting over two lists of sessions adds up |
| SessionsTable.ToCsvValue | src/modules/Session/components/sessions-table.tsx:78-98 | null and undefined become an empty field; text without a quote, comma, LF or CR is written as is; text with one of them is enclosed in double quotes with every `"` doubled (section 2 of RFC 4180) |
| SessionsTable.CollapseDoubled | src/modules/Session/components/sessions-table.tsx:95 | collapsing each `""` back to `"` undoes the doubling |
| SessionsTable.DoubleQuotesLength | src/modules/Session/components/sessions-table.tsx:95 | the escaped text is longer by exactly the number of quotes |
| SessionsTable.CsvRoundTrip | src/modules/Session/components/sessions-table.tsx:78-98 | every field read back (quotes stripped, `""` collapsed) gives the text it was written from, as section 2 of RFC 4180 requires |
| SessionsTable.PlainFieldIsSafe | src/modules/Session/components/sessions-table.tsx:89-97 | an unquoted field holds none of the four special characters |
| SessionsTable.RecordValues | src/modules/Session/components/sessions-table.tsx:138-158 | each record row has the header's eighteen values |
| SessionsTable.SessionRows | src/modules/Session/components/sessions-table.tsx:133-161 | one row per record of the session |
| SessionsTable.CsvBodyPrefix | src/modules/Session/components/sessions-table.tsx:125-162 | the rows up to a session are the rows before it followed by its own |
| SessionsTable.BuildCsvRows | src/modules/Session/components/sessions-table.tsx:100-165 | the header line, then the rows of every session in order |
| SessionsTable.PushSessionRows | src/modules/Session/components/sessions-table.tsx:137-161 | the inner loop appends exactly the session's rows |
| SessionsTable.CsvBodyLength | src/modules/Session/components/sessions-table.tsx:125-162 | the body has as many rows as the sessions have records |
| SessionsTable.TotalRecordsSnoc | src/modules/Session/components/sessions-table.tsx:229 | a session appended adds its own record count |
| SessionsTable.SessionWithoutRecords | src/modules/Session/components/sessions-table.tsx:135 | a session without records adds no row |
| SessionsTable.CsvRowCount | src/modules/Session/components/sessions-table.tsx:100-165 | the file has one header row plus one row per record |
| SessionsTable.SafeNum | src/modules/Session/components/sessions-table.tsx:44-47 | a finite number is kept, anything else becomes 0 |
| SessionsTable.Pct | src/modules/Session/components/sessions-table.tsx:48-51 | 0 for an empty range; always within [0, 100]; 0 at or below min, 100 at or above max |
| SessionsTable.RatioBounds | src/modules/Session/components/sessions-table.tsx:50 | the unclamped ratio is ≤ 0 at or below min and ≥ 100 at or above max |
| SessionsTable.RatioMonotone | src/modules/Session/components/sessions-table.tsx:50 | the unclamped ratio grows with the value |
| SessionsTable.PctMonotone | src/modules/Session/components/sessions-table.tsx:48-51 | a larger value never shows a shorter bar |
| SessionsTable.MetricProgress | src/modules/Session/components/sessions-table.tsx:508-509 | the bar of a metric box is within [0, 100], and 0 when max ≤ min |
| SessionsTable.SortedSessionsSpec | src/modules/Session/components/sessions-table.tsx:204-211 | the table holds the same sessions, newest start first |
| SessionsTable.InsertFigures | src/modules/Session/components/sessions-table.tsx:213-232 | inserting a session into a sorted list keeps the three figures of the unsorted list |
| SessionsTable.SortKeepsFigures | src/modules/Session/components/sessions-table.tsx:204-232 | sorting changes none of the three global figures |
| SessionsTable.GlobalStatsSpec | src/modules/Session/components/sessions-table.tsx:213-232 | the figures are the number of distinct non-empty patient ids (≤ the sessions), the sessions started today, and all records |
| SessionsTable.LastRecord | src/modules/Session/components/sessions-table.tsx:310-317 | the card's newest record: none exactly for no records, else the first record with the latest time |
| SessionsTable.PatientNameAsWrittenShowsUndefined | src/modules/Session/components/sessions-table.tsx:324-326 | as written, a patient without a name is shown as "undefined" instead of by its id |
| SessionsTable.PatientName | src/modules/Session/components/sessions-table.tsx:324-326 | the trimmed name, or the patient id when the name is missing or blank |
| MeData.Spo2Level | src/modules/MeData/me.page.tsx:61-66 | a finite SpO₂ alerts exactly below 90 and is ok exactly from 94 up, warning in between; NaN and +∞ pass every check (ok), −∞ alerts |
| MeData.BpmLevel | src/modules/MeData/me.page.tsx:67-72 | a finite heart rate alerts exactly outside 50..120 and is ok exactly inside 60..100, warning in between; NaN is ok, ±∞ alerts |
| MeData.RespRateLevel | src/modules/MeData/me.page.tsx:73-82 | a finite respiratory rate alerts exactly outside 8..28 and is ok exactly inside 12..20, warning in between; NaN is ok, ±∞ alerts |
| MeData.FlagText | src/modules/MeData/me.page.tsx:61-82 | every flag text starts with the short name of its sign ("SpO₂", "FC", "FR") |
| MeData.FlagTextDistinct | src/modules/MeData/me.page.tsx:61-82 | two raised flags read the same exactly when they are about the same sign at the same level |
| MeData.HasLevel | src/modules/MeData/me.page.tsx:83-86 | `flags.find(f => f.level === level)` finds something exactly when some flag has that level |
| MeData.PushFlag | src/modules/MeData/me.page.tsx:61-82 | checking one vital sign appends its flag (level and text from the thresholds) exactly when it is present and out of range, and otherwise leaves the flags alone |
| MeData.PushFlagStep | src/modules/MeData/me.page.tsx:61-82 | after the vital signs up to one rank are checked, the flags are exactly one fitting flag per out-of-range sign of those ranks, in rank order |
| MeData.WorstMeaning | src/modules/MeData/me.page.tsx:83-87 | for flags that are never ok, the worst level is alert iff some flag alerts, warn iff none alerts and some warns, ok iff there are no flags |
| MeData.ClassifyVitals | src/modules/MeData/me.page.tsx:55-89 | one flag per present out-of-range vital sign, in the order SpO₂, heart rate, respiratory rate, each with its level and text, at most three; the worst level is alert iff some flag alerts, warn iff none alerts and some warns, ok iff there are no flags |
| MeData.NoReadingNoFlag | src/modules/MeData/me.page.tsx:61-82 | a missing or NaN vital sign raises no flag |
| MeData.LatestVitals | src/modules/MeData/me.page.tsx:221-226 | the latest record's three vital signs as it holds them, none without a record |
| MeData.AllRecordsByTime | src/modules/MeData/me.page.tsx:193-196 | the same records as the flattened sessions, oldest first |
| MeData.PickLatestRecord | src/modules/MeData/me.page.tsx:44-49 | none exactly for no records; otherwise the first record with the latest time |
| MeData.LatestOfAllSessions | src/modules/MeData/me.page.tsx:192-198 | the latest record shown is a record of some session and no record is later; none exactly when there are no records |
| MeData.LastSession | src/modules/MeData/me.page.tsx:200-203 | none exactly for no sessions; otherwise the first session with the latest start |
| MeData.TrendSlice | src/modules/MeData/me.page.tsx:205-206 | the last min(150, n) records, in order |
| MeData.ToSeries | src/modules/MeData/me.page.tsx:208-215 | one point per record; its value is absent exactly when the field is missing or NaN, and otherwise the field's value |
| MeData.AdviceDistinct | src/modules/MeData/me.page.tsx:230-235 | the advice is chosen by the worst level, one text per level |
| MeData.AdviceText | src/modules/MeData/me.page.tsx:230-235 | only the ok level gets the reassuring "Todo en rango…" text |
| Dashboard.FormatRelative | src/modules/Dashboard/dashboard-page.tsx:21-31 | no date reads "Sin lecturas" |
| Dashboard.FormatRelativeSpec | src/modules/Dashboard/dashboard-page.tsx:21-31 | by elapsed milliseconds: under a minute (future dates included) "Hace segundos", under an hour the whole minutes, under a day the whole hours, otherwise the whole days |
| Dashboard.FloorTwice | src/modules/Dashboard/dashboard-page.tsx:24-29 | flooring minutes to hours and hours to days is flooring the milliseconds once by the product |
| Dashboard.LatestRecordOfSession | src/modules/Dashboard/dashboard-page.tsx:33-38 | none exactly for a session without records, otherwise the first record with the latest time |
| Dashboard.FlattenSnoc | src/modules/Dashboard/dashboard-page.tsx:46-47 | the records seen after one more session are the earlier ones followed by that session's |
| Dashboard.LatestSnoc | src/modules/Dashboard/dashboard-page.tsx:48-54 | one step of the inner loop: a strictly later record replaces the running latest, otherwise it stays |
| Dashboard.GetLatestRecordGlobal | src/modules/Dashboard/dashboard-page.tsx:40-58 | the record is the first with the latest time over all sessions' records, none exactly when there are no records; the session is given exactly when the record is, is one of the sessions, and holds the record |
| Dashboard.PatientIdsSnoc | src/modules/Dashboard/dashboard-page.tsx:73 | one more session adds its patient id to the set when the id is non-empty |
| Dashboard.DistinctPatientCount | src/modules/Dashboard/dashboard-page.tsx:71-75 | the number of distinct non-empty patient ids, never more than the sessions |
| Dashboard.StableCount | src/modules/Dashboard/dashboard-page.tsx:153 | `Math.max(patients - critical, 0)` never exceeds the patients, equals them with no critical ones, and is 0 when critical ones are at least as many |
| Dashboard.RedirectTo | src/modules/Dashboard/dashboard-page.tsx:82-87 | patients go to "/me", family members to "/family/patients", everyone else stays |
| Dashboard.LatestIsNewest | src/modules/Dashboard/dashboard-page.tsx:206 | the record the `reduce` keeps has the latest time of the session's records |
| Dashboard.IndexOfPatient | src/modules/Dashboard/dashboard-page.tsx:211 | `map.get(id)` finds an entry exactly when one is stored under that id, and the entry found has that id |
| Dashboard.CollectLatestPerPatient | src/modules/Dashboard/dashboard-page.tsx:204-215 | one entry per patient with readings, exactly as many entries as such patients; each entry comes from a session of its patient whose newest reading it holds with the name written from that session, and no earlier session of the patient was as new; every session with records is covered by its patient's entry, which holds the newest reading over all of that patient's sessions |
| Dashboard.VisitSession | src/modules/Dashboard/dashboard-page.tsx:205-215 | the `forEach` callback keeps the map's invariant: one entry per patient, each from a session it names, every session seen so far covered |
| Dashboard.BuiltAll | src/modules/Dashboard/dashboard-page.tsx:205-215 | after the last session the keys are distinct, every entry has a session it came from, and every session with records is covered |
| Dashboard.SkipSession | src/modules/Dashboard/dashboard-page.tsx:206-207 | a session without records leaves the map as it is |
| Dashboard.AppendEntry | src/modules/Dashboard/dashboard-page.tsx:211-214 | a patient seen for the first time gets a new entry at the end of the map's order |
| Dashboard.CoveredAfterReplace | src/modules/Dashboard/dashboard-page.tsx:212-213 | replacing an entry by a newer one of the same patient keeps every session covered |
| Dashboard.EarlierCovered | src/modules/Dashboard/dashboard-page.tsx:211-213 | the entry stored under a session's patient is at least as new as every earlier session of that patient |
| Dashboard.ReplaceEntry | src/modules/Dashboard/dashboard-page.tsx:212-213 | a strictly newer reading for a known patient replaces that patient's entry in place |
| Dashboard.ReplaceKeepsKeys | src/modules/Dashboard/dashboard-page.tsx:213 | `map.set` on an existing key keeps one entry per patient |
| Dashboard.ReplaceKeepsOrigins | src/modules/Dashboard/dashboard-page.tsx:213 | after a replacement the other entries keep their sessions and the new one comes from the current session |
| Dashboard.ReplaceCovers | src/modules/Dashboard/dashboard-page.tsx:212-213 | after a replacement every session seen so far is covered |
| Dashboard.KeepEntry | src/modules/Dashboard/dashboard-page.tsx:212 | a reading that is not strictly newer leaves the map as it is |
| Dashboard.TopRecent | src/modules/Dashboard/dashboard-page.tsx:216-222 | min(5, n) entries, newest first, all taken from the map, and every entry left out is no newer than any entry kept |
| Dashboard.TopDistinct | src/modules/Dashboard/dashboard-page.tsx:216-222 | the top list names each patient at most once |
| Dashboard.PermutationKeysDistinct | src/modules/Dashboard/dashboard-page.tsx:217-221 | sorting entries with one entry per patient keeps one entry per patient |
| Dashboard.RecentPatients | src/modules/Dashboard/dashboard-page.tsx:203-228 | min(5, number of patients with readings) rows, one per listed entry, newest first, each patient at most once, each entry from a session of its patient and holding that patient's newest reading; every patient with readings who is not listed has no reading newer than any listed entry; each row shows the entry's name, "Estable" and the relative time of its reading |
| Dashboard.EntriesCount | src/modules/Dashboard/dashboard-page.tsx:204-216 | a map keyed by patient id that holds a key for every patient with readings and only for them has one value per such patient |
| Stores.SearchSpec | src/modules/Device/data/device.store.tsx:50-63 | the search keeps the loaded list's order and lets through exactly the items that match the lower-cased term |
| Stores.SearchIgnoresCase | src/modules/Device/data/device.store.tsx:55 | the term's case does not change what the search lets through |
| Stores.EntityStore.constructor | src/modules/Device/data/device.store.tsx:24-29 | a new store is empty, with no search, not loading and a total of 0, and its visible list is its search result |
| Stores.EntityStore.ApplySearch | src/modules/Device/data/device.store.tsx:50-63 | `applySearch` stores the term and makes the visible list the loaded list filtered by it; nothing else changes |
| Stores.EntityStore.Reload | src/modules/Device/data/device.store.tsx:76-78 | `reload` filters again with the stored term and changes nothing else |
| Stores.EntityStore.FetchFull | src/modules/Device/data/device.store.tsx:33-48 | on success the loaded list is the fetched one, on failure both lists stay; the term and the total are kept and loading ends cleared |
| Stores.EntityStore.Create | src/modules/Device/data/device.store.tsx:65-74 | the created item goes first and the total is the old length plus one; a rejected call changes nothing and reaches the caller |
| Stores.EntityStore.Update | src/modules/Device/data/device.store.tsx:80-89 | every item carrying the id becomes the updated item, nothing else moves; a rejected call changes nothing and reaches the caller |
| Stores.EntityStore.Remove | src/modules/Device/data/device.store.tsx:91-106 | the items carrying the id are dropped and the total is the new length; a rejected call is caught and changes nothing |
| Stores.EntityStore.ChangeStatus | src/modules/Device/data/device.store.tsx:108-120 | as `update`, but a rejected call is caught |
| Stores.CreateThenRemove | src/modules/Device/data/device.store.tsx:65-106 | creating an item and then removing its id is removing that id from the old list |
| Stores.RemoveAbsent | src/modules/Device/data/device.store.tsx:95 | removing an id no item carries keeps the list |
| Stores.UpdatePlaces | src/modules/Device/data/device.store.tsx:84 | after an update the updated item sits wherever the id was and every other item stays in place |
| Stores.DeviceSearchEmpty | src/modules/Device/data/device.store.tsx:53-61 | an empty search shows every device |
| Stores.PatientSearchEmpty | src/modules/Device/data/patient.store.tsx:49-63 | an empty search shows every patient, named or not |
| Stores.UnnamedPatientByEmail | src/modules/Device/data/patient.store.tsx:54-60 | a patient without a name is found exactly when its lower-cased e-mail contains the lower-cased term |
| Stores.NewDeviceStore | src/modules/Device/data/device.store.tsx:24-29 | the device store is keyed by the device id and searched by serial number and model, and starts empty |
| Stores.NewPatientStore | src/modules/Device/data/patient.store.tsx:23-28 | the patient store is keyed by the user's id and searched by name and e-mail, and starts empty |
| Stores.NewFamilyStore | src/modules/Family/data/family.store.tsx:23-28 | the family store is keyed by the user's id and searched by name and e-mail, and starts empty |
| Stores.Unlink | src/modules/Device/data/device.store.tsx:121-139 | the returned device replaces the devices with that id; a rejected call is caught and changes nothing |
| Stores.SessionStore.constructor | src/modules/Session/data/session.store.tsx:17-19 | no sessions and not loading |
| Stores.SessionStore.FetchByPatient | src/modules/Session/data/session.store.tsx:21-32 | the listed sessions on success, the old ones on failure; loading ends cleared |
| Stores.SessionStore.GetSession | src/modules/Session/data/session.store.tsx:34-36 | none exactly when no session has the id, otherwise the first stored session with that id, as `find` returns it |
| Stores.SessionStore.Clear | src/modules/Session/data/session.store.tsx:38-40 | no sessions, the loading flag kept |
| SessionReport.ReportPatientName | src/modules/Session/components/session-report.tsx:104 | the user's full name when present (even when empty), otherwise "Paciente" |
| SessionReport.DeviceLabelText | src/modules/Session/components/session-report.tsx:105-110 | the label is the trimmed model when there is no serial number, otherwise the model without leading spaces (and a space) followed by the serial in parentheses; the sessions table builds the same label at src/modules/Session/components/sessions-table.tsx:327-332 |
| SessionReport.SessionStats | src/modules/Session/components/session-report.tsx:116-124 | the BPM, SpO₂, respiratory-rate and airflow summaries are each `computeStats` of the session's records for that metric (so each carries the bounds proved for Records.ComputeStats), all zero for a session without records |
| SessionReport.Series | src/modules/Session/components/session-report.tsx:126-135 | one point per record, numbered from 1, in record order, carrying that record's four values |
| SessionReport.NumText | src/modules/Session/components/session-report.tsx:269-271 | a finite number is written with two decimals, anything else is a dash |
| SessionReport.BoolText | src/modules/Session/components/session-report.tsx:272-276 | true reads "Positiva", false "Negativa", anything else a dash, and nothing else is produced |
| SessionCompare.Candidates | src/modules/Session/components/session-compare.tsx:210 | the candidates are exactly the sessions whose id is not the base's, in their order |
| SessionCompare.CompareSession | src/modules/Session/components/session-compare.tsx:106 | no comparison without a chosen id, otherwise the first session with that id |
| SessionCompare.NextCompareId | src/modules/Session/components/session-compare.tsx:204-221 | no id without a base or without candidates; a non-empty id naming a candidate is kept; any other id (missing, empty or naming no candidate) becomes the first candidate's id; any id chosen names a candidate and is never the base's |
| SessionCompare.NextCompareIdSettles | src/modules/Session/components/session-compare.tsx:204-221 | the effect re-run on the id it set changes nothing, so it does not loop |
| SessionCompare.CompareDialog.constructor | src/modules/Session/components/session-compare.tsx:104 | the dialog starts with no compared session |
| SessionCompare.CompareDialog.SyncCompareId | src/modules/Session/components/session-compare.tsx:204-221 | the effect leaves the id the comparison rule gives for the old id |
| SessionCompare.RadarData | src/modules/Session/components/session-compare.tsx:132-159 | empty without a comparison session, else four axes BPM, SpO₂, Resp/min and Flujo Aire with the base's and the comparison's averages |
| SessionCompare.FiniteAt | src/modules/Session/components/session-compare.tsx:175-197 | a side's value at an index is given exactly when that record exists and its value is finite, and is then that value |
| SessionCompare.TimeSeries | src/modules/Session/components/session-compare.tsx:162-200 | one entry per index of the longer list, numbered from 1, each side holding its finite value or nothing |
| SessionCompare.Diffs | src/modules/Session/components/session-compare.tsx:492-494 | base plus difference is the comparison for each summary, and all differences are zero exactly when the summaries agree |
| SessionCompare.Sign | src/modules/Session/components/session-compare.tsx:496-497 | zero reads "0.00", a positive difference gets a leading "+", a negative one is written as is |
| SessionCharts.AvgOf | src/modules/Session/components/session-chars.tsx:47-57 | 0 without finite values, otherwise between their minimum and maximum |
| SessionCharts.AvgOfIgnoresNonFinite | src/modules/Session/components/session-chars.tsx:51-53 | a record whose value is missing or not finite does not move the average |
| SessionCharts.Booleans | src/modules/Session/components/session-chars.tsx:63-65 | the booleans kept are never more than the records |
| SessionCharts.CountTrue | src/modules/Session/components/session-chars.tsx:67 | the count of true values is at most the length, is the length exactly when all are true and 0 exactly when none is |
| SessionCharts.PctTrue | src/modules/Session/components/session-chars.tsx:59-69 | a percentage in [0, 100]: 0 without booleans, 100 exactly when all are true, 0 exactly when all are false |
| SessionCharts.ShareBounds | src/modules/Session/components/session-chars.tsx:68 | a share of `t` out of `n` times 100 lies in [0, 100] and hits the ends exactly at `t = n` and `t = 0` |
| SessionCharts.BooleansIgnoreMissing | src/modules/Session/components/session-chars.tsx:63-65 | a record without a boolean reading does not change the percentage's inputs |
| SessionCharts.ChartData | src/modules/Session/components/session-chars.tsx:74-95 | one row per session in session order, labelled S1, S2, …; each of the seven averages is `avgOf` of the session's records for its metric and the positive share is `pctTrue` of them, hence in [0, 100] |
| SessionCharts.ChartLabelsDistinct | src/modules/Session/components/session-chars.tsx:78 | no two rows share a label |
| MultiSelect.ClearOne | src/components/select/multi-select.tsx:57 | the value is gone, every other value keeps its membership and its number of occurrences, and the order is kept |
| MultiSelect.ClearAll | src/components/select/multi-select.tsx:58 | nothing stays selected |
| MultiSelect.Toggle | src/components/select/multi-select.tsx:52-55 | a selected value is cleared; an unselected one is appended at the end; afterwards the value is selected exactly when it was not before, and no other value changes |
| MultiSelect.ToggleTwice | src/components/select/multi-select.tsx:52-55 | toggling an unselected value twice gives the selection back |
| MultiSelect.FilterAppendRejected | src/components/select/multi-select.tsx:53 | filtering out an appended element that the filter rejects is filtering the list before it |
| MultiSelect.LookupOption | src/components/select/multi-select.tsx:46-49 | `map.get(v)` is none exactly when no option has the value, otherwise an option with that value (the last one, as `new Map` keeps the last) |
| MultiSelect.Selected | src/components/select/multi-select.tsx:50 | never more chips than selected values, and each chip is the option its value looks up |
| MultiSelect.SelectedValues | src/components/select/multi-select.tsx:50 | the chips' values are the selected values that have an option, in selection order |
| MultiSelect.ValuesCons | src/components/select/multi-select.tsx:50 | the values of a list with one more option in front |
| MultiSelect.VisibleBadges | src/components/select/multi-select.tsx:64 | the first `min(count, maxBadges)` chips |
| MultiSelect.Overflow | src/components/select/multi-select.tsx:77-79 | the "+n" badge appears exactly when there are more chips than `maxBadges` |
| MultiSelect.BadgesAccountForAll | src/components/select/multi-select.tsx:64-79 | the chips shown plus the overflow number are all the chips |
| MultiSelect.ClearShownWithCount | src/components/select/multi-select.tsx:80-105 | with the default placeholder the "Limpiar" button is shown exactly when the trigger shows a count instead of the placeholder, and clearing everything hides it |
| MultiSelect.TriggerLabel | src/components/select/multi-select.tsx:103-105 | the placeholder when nothing is selected, otherwise exactly the count followed by " seleccionado(s)" |
| MultiSelect.NatTextStartsWithDigit | src/components/select/multi-select.tsx:105 | a number's text starts with a digit |
| MultiSelect.DefaultTriggerLabel | src/components/select/multi-select.tsx:38 | with the default placeholder "Selecciona…" the trigger shows it exactly when nothing is selected |
| ExpandableTable.Toggled | src/components/table/data-table-expandable.tsx:20-30 | the key is in the new set exactly when it was not in the old one, and every other key keeps its membership |
| ExpandableTable.ToggledTwice | src/components/table/data-table-expandable.tsx:20-30 | toggling a key twice restores the set |
| ExpandableTable.ToggledCommute | src/components/table/data-table-expandable.tsx:20-30 | toggling two keys in either order gives the same set |
| ExpandableTable.DataTableExpandable.constructor | src/components/table/data-table-expandable.tsx:12-19 | a new table has no expanded row |
| ExpandableTable.DataTableExpandable.KeyOf | src/components/table/data-table-expandable.tsx:14-16 | without `getRowKey` a row's key is its id |
| ExpandableTable.DataTableExpandable.ToggleExpanded | src/components/table/data-table-expandable.tsx:20-30 | the expanded set is the old one with the key toggled |
| ExpandableTable.DataTableExpandable.ToggleRow | src/components/table/data-table-expandable.tsx:41-47 | clicking the chevron flips the row's expansion and leaves every row with another key as it was |
| ExpandableTable.DataTableExpandable.RowChildren | src/components/table/data-table-expandable.tsx:51-55 | nothing for a collapsed row or without a renderer, otherwise the rendered content of the row's data |
| ExpandableTable.FreshTableCollapsed | src/components/table/data-table-expandable.tsx:19 | with nothing expanded no row is expanded or shows content |
| FamilyPatients.Words | src/modules/FamilyPatient/familypatient-page.tsx:22-24 | the words of a name are the non-empty pieces between spaces, in order, none holding a space |
| FamilyPatients.JoinSingles | src/modules/FamilyPatient/familypatient-page.tsx:27 | joining one-character strings gives a string of those characters in order |
| FamilyPatients.GetInitials | src/modules/FamilyPatient/familypatient-page.tsx:20-28 | a dash for a missing or empty name; otherwise the upper-cased first letters of the first two words, one per word |
| FamilyPatients.SpacesOnlyName | src/modules/FamilyPatient/familypatient-page.tsx:21-27 | a name of spaces only passes the emptiness test and shows no initials at all, not the dash |
| FamilyPatients.SplitSpaces | src/modules/FamilyPatient/familypatient-page.tsx:23 | splitting a string of spaces on spaces gives only empty pieces |
| FamilyPatients.FilterNone | src/modules/FamilyPatient/familypatient-page.tsx:24 | `filter(Boolean)` drops every empty piece |
| FamilyPatients.MatchesQuerySpec | src/modules/FamilyPatient/familypatient-page.tsx:30-32 | a text matches exactly when the trimmed, lower-cased query occurs in the lower-cased text, whatever the case of either |
| FamilyPatients.TrimLower | src/modules/FamilyPatient/familypatient-page.tsx:31 | trimming and lower-casing the query does not depend on its case |
| FamilyPatients.TrimStartLower | src/modules/FamilyPatient/familypatient-page.tsx:31 | lower-casing commutes with removing leading spaces |
| FamilyPatients.TrimEndLower | src/modules/FamilyPatient/familypatient-page.tsx:31 | lower-casing commutes with removing trailing spaces |
| FamilyPatients.BlankQueryMatches | src/modules/FamilyPatient/familypatient-page.tsx:30-32 | a query of spaces only matches every text |
| FamilyPatients.Filtered | src/modules/FamilyPatient/familypatient-page.tsx:135-138 | no patients without a family; an unnamed patient makes the filter throw; otherwise the family's patients whose name or e-mail matches, in their order |
| FamilyPatients.BlankQueryShowsAll | src/modules/FamilyPatient/familypatient-page.tsx:135-138 | a blank query shows every patient when all are named |
| FamilyPatients.NoResults | src/modules/FamilyPatient/familypatient-page.tsx:189-232 | the no-results notice is shown only with no (truthy) error, not loading and nothing listed; once loaded without error and with nothing listed, exactly one of it and the "no patients linked" notice shows |
| FamilyPatients.NoMatchShowsNotice | src/modules/FamilyPatient/familypatient-page.tsx:226-232 | a family of named patients none of whom matches the query shows the no-results notice once loaded without error |
| FamilyPatients.BlankQueryNoNotice | src/modules/FamilyPatient/familypatient-page.tsx:196-232 | whatever the error, a blank query never shows the no-results notice when every patient is named |
| FormCommon.PatientOption | src/modules/Family/modal-form.tsx:37-41 | a patient's option carries its id and its name, or "(Sin nombre)" without one |
| FormCommon.PatientOptions | src/modules/Device/modal-form.tsx:129 | one option per patient, in order |
| FormCommon.PatientIds | src/modules/Family/modal-form.tsx:84 | the patients' ids, in order |
| FormCommon.OptionForId | src/modules/Family/modal-form.tsx:37-41 | an id has an option exactly when some patient has that id |
| DeviceForm.DeviceErrors | src/modules/Device/modal-form.tsx:43-47 | a serial of under 2 characters, an empty model and a patient id that is not a UUID are each reported, and nothing is reported exactly when all three rules hold |
| DeviceForm.ResetValues | src/modules/Device/modal-form.tsx:82-96 | a creation starts blank; an edit starts from the device's serial and model and its patient's id, or "" without a patient |
| DeviceForm.BlankFormRejected | src/modules/Device/modal-form.tsx:55-59 | the blank form fails all three rules |
| DeviceForm.UnlinkedDeviceNeedsPatient | src/modules/Device/modal-form.tsx:87 | editing a device without a patient cannot be saved until a patient is chosen |
| DeviceForm.RequestFor | src/modules/Device/modal-form.tsx:100-112 | an update of the edited device's id exactly when editing, otherwise a creation, always carrying the three form fields |
| DeviceForm.ResubmitUnchanged | src/modules/Device/modal-form.tsx:84-105 | saving an untouched edit of a linked device sends the device's own serial, model and patient back |
| DeviceForm.DevicePatientOptions | src/modules/Device/modal-form.tsx:127-129 | an option is offered exactly when it is the option of a patient without a device or of the patient linked to the edited device |
| DeviceForm.DevicePatientOptionsOrder | src/modules/Device/modal-form.tsx:127-129 | the options are those of some patients kept in their order |
| DeviceForm.LinkedPatientOffered | src/modules/Device/modal-form.tsx:128 | the patient of the edited device is offered |
| DeviceForm.OtherDevicePatientHidden | src/modules/Device/modal-form.tsx:128 | a patient linked to another device is not offered |
| DeviceForm.DeviceFormModal.constructor | src/modules/Device/modal-form.tsx:53-60 | the form starts from blank values |
| DeviceForm.DeviceFormModal.Reset | src/modules/Device/modal-form.tsx:82-96 | the values become the reset values of the device |
| DeviceForm.DeviceFormModal.Submit | src/modules/Device/modal-form.tsx:98-125 | invalid values send nothing and leave the store; valid values send the request, the store updates or prepends on success and stays on failure, and the modal closes exactly when the call succeeds |
| FamilyForm.FamilyErrors | src/modules/Family/modal-form.tsx:43-51 | the name needs 2 characters, the e-mail must be one, the password 6 characters only on creation, and at least one patient is needed; each error is reported exactly when its rule fails |
| FamilyForm.ToPatientOptions | src/modules/Family/modal-form.tsx:37-41 | one option per patient, with its id and its name or "(Sin nombre)" |
| FamilyForm.ResetValues | src/modules/Family/modal-form.tsx:80-94 | a creation starts blank; an edit starts from the user's name, e-mail and address ("" when missing) and the ids of the family's patients; the password is never filled in |
| FamilyForm.EditUntouchedAccepted | src/modules/Family/modal-form.tsx:43-51 | an untouched edit is accepted exactly when the name has 2 characters, the e-mail is valid and there is a patient |
| FamilyForm.BlankFormRejected | src/modules/Family/modal-form.tsx:57-62 | the blank creation form fails on the name, the password and the patients |
| FamilyForm.PreselectedShown | src/modules/Family/modal-form.tsx:84 | when the loaded patients include the family's, every preselected patient shows as a chip, in order |
| FamilyForm.RequestFor | src/modules/Family/modal-form.tsx:96-113 | an update of the family's user id without a password exactly when editing, otherwise a creation with the password; both carry the name, e-mail, address and patient ids |
| FamilyForm.UpdateTargetsFamilyRow | src/modules/Family/modal-form.tsx:99 | the update targets the id the family store compares with |
| FamilyForm.FamilyFormModal.constructor | src/modules/Family/modal-form.tsx:55-63 | the form starts from blank values |
| FamilyForm.FamilyFormModal.Reset | src/modules/Family/modal-form.tsx:80-94 | the values become the reset values of the family |
| FamilyForm.FamilyFormModal.Submit | src/modules/Family/modal-form.tsx:96-127 | invalid values send nothing and leave the store; valid values send the request, the store updates or prepends on success and stays on failure, and the modal closes exactly when the call succeeds |
| DoctorForm.DoctorErrors | src/modules/Doctors/modal-form.tsx:34-41 | the name needs 2 characters, the e-mail must be one and the password 6 characters only on creation; each error exactly when its rule fails |
| DoctorForm.ResetValues | src/modules/Doctors/modal-form.tsx:54-69 | a creation starts blank; an edit from the user's name, e-mail and address ("" when missing); never a password |
| DoctorForm.EditUntouchedAccepted | src/modules/Doctors/modal-form.tsx:34-41 | an untouched edit is accepted exactly when the name has 2 characters and the e-mail is valid |
| DoctorForm.CreateNeedsPassword | src/modules/Doctors/modal-form.tsx:39 | a creation without a password of 6 characters is rejected |
| DoctorForm.RequestFor | src/modules/Doctors/modal-form.tsx:71-81 | an update of the doctor's user id with name, address and e-mail exactly when editing, otherwise the whole form |
| DoctorForm.UpdateIgnoresPassword | src/modules/Doctors/modal-form.tsx:74-78 | what an update sends does not depend on the password field |
| DoctorForm.DoctorFormModal.constructor | src/modules/Doctors/modal-form.tsx:45-52 | the form starts from blank values |
| DoctorForm.DoctorFormModal.Reset | src/modules/Doctors/modal-form.tsx:54-69 | the values become the reset values of the doctor |
| DoctorForm.DoctorFormModal.Submit | src/modules/Doctors/modal-form.tsx:71-95 | invalid values send nothing; valid values send the request, the store updates or prepends on success and stays on failure, and the modal closes exactly when the call succeeds |
| RolePermissions.Permissions | src/auth/role-permissions.ts:10-28 | every role may read sessions, and only the admin may write telemetry |
| RolePermissions.Nested | src/auth/role-permissions.ts:10-28 | patient, family, doctor and admin hold nested permission sets: a higher role has every permission of a lower one |
| RolePermissions.PatientOnlyReadsSessions | src/auth/role-permissions.ts:11 | a patient has exactly the permission to read sessions |
| RolePermissions.AdminHasAll | src/auth/role-permissions.ts:20-27 | the admin has every permission, each listed once |
| RolePermissions.NoDuplicates | src/auth/role-permissions.ts:10-28 | no role lists a permission twice |
| Sorting.SortDescProps | src/modules/Session/components/sessions-table.tsx:204-211 | the descending sort (also at src/modules/Dashboard/dashboard-page.tsx:217-221 and src/modules/MeData/me.page.tsx:44-49) yields a list ordered from the largest key down that is a permutation of its input |
| Sorting.SortDescHead | src/modules/MeData/me.page.tsx:44-49 | the sort is stable: its head is the first element with the largest key |
| Sorting.InsertProps | src/modules/Session/components/sessions-table.tsx:206-209 | inserting one element into a sorted list keeps it sorted, adds exactly that element, and puts it first when its key is at least the old head's |
| Lists.FindFirst | src/modules/Session/data/session.store.tsx:35 | `find` gives nothing exactly when no element has the key, otherwise the first element that has it |
| Lists.RemoveWhereSpec | src/modules/Device/data/device.store.tsx:95 | after `filter(item => item.id !== id)` no element carries the id and every other element keeps its number of occurrences |
| Lists.ReplaceThenRemove | src/modules/Device/data/device.store.tsx:84-95 | an update followed by a removal of the same id is that removal alone |
| JsString.SplitJoin | src/modules/FamilyPatient/familypatient-page.tsx:23 | `split(" ")` followed by `join(" ")` gives the name back |
| JsString.SplitPiecesNoSep | src/modules/FamilyPatient/familypatient-page.tsx:23 | no piece of `split(" ")` holds a space |
| JsString.IncludesAt | src/modules/FamilyPatient/familypatient-page.tsx:31 | `includes` finds a string exactly when it occurs at some index |
| JsString.TrimIdempotent | src/modules/FamilyPatient/familypatient-page.tsx:31 | trimming a trimmed query changes nothing |
| BreathingPattern.RunsOrdered | src/modules/Monitoring/components/breathing-pattern-chart.tsx:197-210 | in a cover of the points the bands come in order, a later band starting after an earlier one ends |
| BreathingPattern.NumSumNaN | src/modules/Monitoring/components/breathing-pattern-chart.tsx:218 | one NaN makes the `reduce` sum NaN |
| BreathingPattern.NumSumFinite | src/modules/Monitoring/components/breathing-pattern-chart.tsx:218 | the sum of finite numbers is the finite sum of their values |

## Left out

- I/O is not modelled: the MQTT connection, the REST services (their results are parameters), toasts, console logging, the CSV download through a `Blob`, and the PDF export.
- Monitoring.MonitoringPage.Tick: the reading is a parameter; the random values the page generates and the 3-second interval timer are not modelled.
- Number formatting is not modelled. `toFixed` is a parameter where its text is shown, `toLocaleDateString`/`toLocaleTimeString` are left out, and numbers are exact reals without IEEE rounding.
- Records.ComputeStats: the average, minimum and maximum are not rounded to two decimals as `+x.toFixed(2)` does, so the bounds it proves are those of the exact values.
- SessionCharts.AvgOf: not rounded to two decimals, so the bounds hold for the exact mean.
- SessionCharts.PctTrue: not rounded to one decimal. After rounding, a share of 99.95% or more would also read 100, so "100 exactly when all are true" holds for the exact share only.
- BreathingPattern.AvgBaseline: the mean is not rounded to three decimals.
- Dates are milliseconds since the epoch. Parsing ISO strings with `new Date` (and the NaN an invalid string gives) is not modelled.
- Monitoring.KeepLast: takes the count as a parameter where the source writes `slice(-50)`; for a count of 0 it keeps nothing, whereas `slice(-0)` would keep everything. Only the count 50 is ever used.
- Dashboard.CollectLatestPerPatient: names entries with the corrected SessionsTable.PatientName (id when the full name is missing or blank); as written at src/modules/Dashboard/dashboard-page.tsx:208-210 a missing full name shows as "undefined" (see Findings).
- Dashboard.TopRecent: the contract does not say which of several entries with equal times survive the cut at five. The model's sort is stable like the source's, so the map's insertion order decides, but this is not stated.
- The dashboard's vital-sign cards and `latestPatientName`, the `monitoringSession` adapter and the report's date header are display text and are left out.
- Case mapping covers ASCII letters only, and string lengths count characters, not UTF-16 code units.
- The e-mail rule of the validation library is a parameter. `IsUuid` checks the 8-4-4-4-12 hexadecimal shape and does not check the version or variant digits.
- The forms' handling of a rejected call is left out: the 400 response that marks the e-mail field and the error toasts. Only "the modal closes exactly when the call succeeds" is modelled.
- The device and family forms load the patient list in an effect. The loaded list is a parameter of the option functions.
- The intermediate `isLoading = true` of `fetchFull` and `fetchByPatient` is not observable in the model; only the final state is.
- The doctor store (`userDoctorStore`) is not part of this model. The doctor form is run against a store of the same shape as the other three.
- The patient page's reload effect and its patient lookup by the user's id are left out; the page's functions take the sessions as input.
- Routing, authentication, cookies and the table, toolbar and pagination widgets are outside the modelled logic.

## Findings

| source | as written | input that shows it | evidently intended | confidence | as-written member | corrected member |
|---|---|---|---|---|---|---|
| src/modules/Session/components/sessions-table.tsx:324-326 | the name is the trimmed template text of `fullname`, falling back to the patient id only when that text is empty; the dashboard builds names the same way at src/modules/Dashboard/dashboard-page.tsx:122-125 and 208-210 | a session whose patient's user has no `fullname`: the template turns `undefined` into the text "undefined", which is shown as the name | the trimmed full name, or the patient id when the name is missing or blank | not executed | SessionsTable.PatientNameAsWrittenShowsUndefined | SessionsTable.PatientName |
