# AppUpdateChecker update coordination, modelled in Dafny

This project models the update coordinator of the `appupdatechecker2` Android
library (`AppUpdateChecker`). The coordinator decides four things:

- when a check request reaches the version checker: checking is enabled and the settings are stale, or the check is forced;
- what to do with a version-check result: ignore it, reuse the package already on disk, or start a download;
- how a finished download is persisted and reported to the host;
- how collaborator errors are forwarded.

Each public entry point and each collaborator callback is a pure transition.
It maps a `Checker` state (the persisted settings plus the changelog held in
memory) to a `Step`: the new state and the outbound calls made, in order.
The outbound calls are `CallChecker(urls)`, `CallDownloader(uris)`,
`NotifyFound(changelog, path)` and `NotifyError(e)`.

Modules:

- `Wrappers` (`wrappers.dfy`) defines `Option`, which stands for a Java reference that may be null.
- `SettingsStore` (`settings_store.dfy`) holds the settings record, the staleness test and the two persisting writes. A write is a record update, so reading a field back returns what was just written.
- `Coordinator` (`coordinator.dfy`) holds the transitions, one per entry point and callback.
- `Trace` (`trace.dfy`) delivers sequences of events one at a time. For every field that the events change, it defines independently of the transitions what the field must hold after a sequence: the changelog, the version name and number, the package path, the last-updated time and the enabled flag. It proves by induction that running the events yields exactly that. The minimum interval is never changed.
- `Intended` (`intended.dfy`) holds a corrected coordinator. It records the version each completed download was made for, and it reuses a package only for that version (see Findings). This assumes one check cycle, and so at most one download, is in progress at a time.

Inputs the code takes from its environment are parameters:

- The current time (`System.currentTimeMillis()`) is an argument `now`.
- File existence (`FileHelpers.isFileExists`) is an oracle `fileExists: Option<string> -> bool`. It is applied to the stored package path, whatever the path is, null included.

Lines 83-84 are evidently meant to detect a package already downloaded for
the reported version. They compare the reported number with the number
written at line 81, so the comparison is always true. The model follows the
code, and `Trace` runs the code's handler. A corrected coordinator, and how
it differs from the code, is under Findings.

## Model

| member | source | states |
|---|---|---|
| `SettingsStore.IsStale` | appupdatechecker2/src/main/java/com/liskovsoft/appupdatechecker2/AppUpdateChecker.java:41-43 | staleness is a strict comparison: exactly one interval (minutes × 60000 ms) after the last update is not stale, one millisecond later is, and with a non-negative interval a stale state has `now` after the last update |
| `SettingsStore.StaleIsStrict` | appupdatechecker2/src/main/java/com/liskovsoft/appupdatechecker2/AppUpdateChecker.java:41-43 | exactly one minimum interval (minutes × 60000 ms) after the last update is not stale; one millisecond later is stale |
| `SettingsStore.StaleIsMonotone` | appupdatechecker2/src/main/java/com/liskovsoft/appupdatechecker2/AppUpdateChecker.java:41-43 | staleness means the last update plus the interval lies strictly before `now`, and once stale the settings stay stale as time goes on |
| `SettingsStore.PersistVersion` | appupdatechecker2/src/main/java/com/liskovsoft/appupdatechecker2/AppUpdateChecker.java:80-81 | after the two writes, the name and number read back as written and every other setting is unchanged |
| `SettingsStore.PersistDownload` | appupdatechecker2/src/main/java/com/liskovsoft/appupdatechecker2/AppUpdateChecker.java:95-98 | after a download is persisted, the path and time read back as written and nothing else changes; at that moment the settings are not stale, provided the interval is not negative |
| `Coordinator.SetEnabled` | appupdatechecker2/src/main/java/com/liskovsoft/appupdatechecker2/AppUpdateChecker.java:111-113 | `isEnabled` afterwards returns the value set; no other setting and not the changelog changes |
| `Coordinator.SetThenIsEnabled` | appupdatechecker2/src/main/java/com/liskovsoft/appupdatechecker2/AppUpdateChecker.java:107-113 | setting then reading the flag returns what was set, and setting the flag to its current value leaves the state unchanged |
| `Coordinator.CheckForUpdatesInt` | appupdatechecker2/src/main/java/com/liskovsoft/appupdatechecker2/AppUpdateChecker.java:66-74 | checks are never postponed, so the manifests always go to the version checker, and the state is unchanged |
| `Coordinator.CheckForUpdates` | appupdatechecker2/src/main/java/com/liskovsoft/appupdatechecker2/AppUpdateChecker.java:52-56 | the version checker is called, with exactly the given manifests, if and only if checking is enabled and the settings are stale; otherwise nothing is called; the state never changes |
| `Coordinator.CheckForUpdatesOne` | appupdatechecker2/src/main/java/com/liskovsoft/appupdatechecker2/AppUpdateChecker.java:45-47 | the single-URL overload behaves as the one-element array version, with the same enabled-and-stale gate |
| `Coordinator.ForceCheckForUpdates` | appupdatechecker2/src/main/java/com/liskovsoft/appupdatechecker2/AppUpdateChecker.java:62-64 | a forced check always makes exactly one call, to the version checker, whatever the flag or the time, and does not change the state |
| `Coordinator.ForceCheckForUpdatesOne` | appupdatechecker2/src/main/java/com/liskovsoft/appupdatechecker2/AppUpdateChecker.java:58-60 | the single-URL forced check is the one-element array version and calls the checker with `[url]` |
| `Coordinator.GateIgnoresVersion` | appupdatechecker2/src/main/java/com/liskovsoft/appupdatechecker2/AppUpdateChecker.java:80-84 | once the reported version is persisted, the reuse gate (number read back equals reported number, and the file exists) reduces to "the file at the stored path exists" |
| `Coordinator.OnChangelogReceived` | appupdatechecker2/src/main/java/com/liskovsoft/appupdatechecker2/AppUpdateChecker.java:77-90 | a result that is the latest version, or has no download locations, changes nothing and calls nothing. Otherwise the changelog is kept and the version is persisted. If the stored package file exists, the host is notified with that path; if not, the downloader gets the reported locations. The path, the last-update time and the flag never change |
| `Coordinator.OnApkDownloaded` | appupdatechecker2/src/main/java/com/liskovsoft/appupdatechecker2/AppUpdateChecker.java:93-105 | a null path changes nothing and calls nothing. Otherwise the path and `now` are persisted and the host is notified with the kept changelog and the path. The version, the flag, the interval and the changelog are unchanged |
| `Coordinator.OnCheckError` | appupdatechecker2/src/main/java/com/liskovsoft/appupdatechecker2/AppUpdateChecker.java:115-118 | a check error goes to the host unchanged, as the only call, and the state is unchanged |
| `Coordinator.OnDownloadError` | appupdatechecker2/src/main/java/com/liskovsoft/appupdatechecker2/AppUpdateChecker.java:120-123 | a download error goes to the host unchanged, as the only call, and the state is unchanged |
| `Trace.Apply` | appupdatechecker2/src/main/java/com/liskovsoft/appupdatechecker2/AppUpdateChecker.java:45-123 | every event makes at most one call. Only `setEnabled` changes the flag, and no event changes the interval. The version checker is called only by a forced check or by a check made while enabled |
| `Trace.Run` | appupdatechecker2/src/main/java/com/liskovsoft/appupdatechecker2/AppUpdateChecker.java:45-123 | a sequence of events makes no more calls than it has events, and it never changes the minimum interval |
| `Trace.RunKeepsLastChangelog` | appupdatechecker2/src/main/java/com/liskovsoft/appupdatechecker2/AppUpdateChecker.java:77-105 | after any sequence, the changelog in memory is the one of the most recent accepted version-check result, or the initial one if there is none |
| `Trace.RunKeepsLastVersionNumber` | appupdatechecker2/src/main/java/com/liskovsoft/appupdatechecker2/AppUpdateChecker.java:77-105 | after any sequence, the persisted version number is the one of the most recent accepted result, or the initial one |
| `Trace.RunKeepsLastApkPath` | appupdatechecker2/src/main/java/com/liskovsoft/appupdatechecker2/AppUpdateChecker.java:77-105 | after any sequence, the persisted package path is the one of the most recent download that produced a path, or the initial one |
| `Trace.RunKeepsLastVersionName` | appupdatechecker2/src/main/java/com/liskovsoft/appupdatechecker2/AppUpdateChecker.java:77-105 | after any sequence, the persisted version name is the one of the most recent accepted result, or the initial one |
| `Trace.RunKeepsLastUpdatedMs` | appupdatechecker2/src/main/java/com/liskovsoft/appupdatechecker2/AppUpdateChecker.java:93-105 | after any sequence, the last-updated time is the time of the most recent download that produced a path, or the initial one. Checks, ignored results and errors never move the staleness clock |
| `Trace.RunKeepsLastEnabled` | appupdatechecker2/src/main/java/com/liskovsoft/appupdatechecker2/AppUpdateChecker.java:107-113 | after any sequence, the enabled flag is the value most recently set, or the initial one |
| `Trace.DownloadNotifiesLastChangelog` | appupdatechecker2/src/main/java/com/liskovsoft/appupdatechecker2/AppUpdateChecker.java:77-105 | whatever came before, a completed download appends exactly one notification, carrying the most recent accepted changelog and the new path, and it persists that path and the time |
| `Trace.NotificationMatchesCommittedState` | appupdatechecker2/src/main/java/com/liskovsoft/appupdatechecker2/AppUpdateChecker.java:79-103 | every "update found" notification carries exactly the changelog and package path that the new state holds, so the host never sees settings that are not yet stored |
| `Trace.ErrorsAreForwarded` | appupdatechecker2/src/main/java/com/liskovsoft/appupdatechecker2/AppUpdateChecker.java:115-123 | a sequence of collaborator errors forwards each error, one for one and in order, and leaves the state unchanged |
| `Trace.DisabledNeverCallsChecker` | appupdatechecker2/src/main/java/com/liskovsoft/appupdatechecker2/AppUpdateChecker.java:52-74 | starting disabled, a sequence that never forces a check and never enables checking never calls the version checker |
| `Trace.FullCycle` | appupdatechecker2/src/main/java/com/liskovsoft/appupdatechecker2/AppUpdateChecker.java:52-105 | with checking enabled, stale settings and no package on disk, check → newer version → download calls the checker, then the downloader, then notifies the host with that same check's changelog. It persists the new version, the path and the download time |
| `Trace.RecentCheckIsNoOp` | appupdatechecker2/src/main/java/com/liskovsoft/appupdatechecker2/AppUpdateChecker.java:41-56 | with a 60-minute interval and the last update 10 minutes ago, an enabled non-forced check does nothing |
| `Trace.NewerVersionIsDownloaded` | appupdatechecker2/src/main/java/com/liskovsoft/appupdatechecker2/AppUpdateChecker.java:77-105 | version 5 reported over a stored version 4 with no file on disk is downloaded; completion at `/data/app.apk` notifies the host and persists version 5 and that path |
| `Intended.OnChangelogReceivedIntended` | appupdatechecker2/src/main/java/com/liskovsoft/appupdatechecker2/AppUpdateChecker.java:79-88 | corrected gate. The settings and changelog change as in the code. The package on disk is reused if and only if it was recorded as downloaded for the reported number and the file exists; otherwise the download starts |
| `Intended.OnApkDownloadedIntended` | appupdatechecker2/src/main/java/com/liskovsoft/appupdatechecker2/AppUpdateChecker.java:93-105 | a completed download behaves as in the code, and it also records the version it was made for: the number persisted by the last accepted result |
| `Intended.ApplyIntended` | appupdatechecker2/src/main/java/com/liskovsoft/appupdatechecker2/AppUpdateChecker.java:45-123 | the corrected coordinator reaches the same settings and changelog as the code on every event. It makes the same calls on every event except a version-check result |
| `Intended.RunIntendedKeepsBase` | appupdatechecker2/src/main/java/com/liskovsoft/appupdatechecker2/AppUpdateChecker.java:45-123 | over any sequence, the corrected coordinator's settings and changelog are those of the code |
| `Intended.RunIntendedRecordsDownloadedVersion` | appupdatechecker2/src/main/java/com/liskovsoft/appupdatechecker2/AppUpdateChecker.java:77-105 | after any sequence, the recorded package version is the number of the last accepted result before the most recent completed download |
| `Intended.ReuseOnlyPackageOfReportedVersion` | appupdatechecker2/src/main/java/com/liskovsoft/appupdatechecker2/AppUpdateChecker.java:79-88 | after any sequence, when a result for version n reuses a package, the reused path is the path of the most recent completed download. That download was made for version n, and the file exists |
| `Intended.AgreesUnlessStalePackage` | appupdatechecker2/src/main/java/com/liskovsoft/appupdatechecker2/AppUpdateChecker.java:79-88 | the code's handler and the corrected one reach the same state. They make the same calls exactly when there is no existing package recorded for a version other than the reported one |
| `Intended.StalePackageIsSurfaced` | appupdatechecker2/src/main/java/com/liskovsoft/appupdatechecker2/AppUpdateChecker.java:79-88 | version 4 on disk, version 5 reported: the code surfaces the version-4 package without downloading; the corrected handler downloads |
| `Intended.FailedDownloadIsNotReused` | appupdatechecker2/src/main/java/com/liskovsoft/appupdatechecker2/AppUpdateChecker.java:79-122 | version 4 on disk; version 5 is accepted, its download fails and version 5 is reported again. The code surfaces the version-4 package twice, while the corrected coordinator downloads both times |

## Left out

- `installUpdate` (line 125-127) calls an OS installer in a library that is not part of this model.
- The constructor, the Android `Context` and the `Log` calls (lines 26-34, 100-101) are platform plumbing with no effect on decisions.
- `AppVersionChecker`, `AppDownloader`, `SettingsManager`, `FileHelpers` and `Helpers` are not part of this model. The settings are a plain record, and file existence is an oracle parameter.
- Time is a parameter `now` instead of `System.currentTimeMillis()`.
- Callbacks are delivered as separate sequential events. Asynchrony and concurrent delivery are not modelled.
- `SettingsStore.IsStale`: uses mathematical integers for `getMinInterval() * MILLISECONDS_IN_MINUTE`. Java `int` overflow is not modelled, because the operand types are not visible. If `getMinInterval()` is an `int`, the product is negative for 35,792–71,582 minutes, where every check with `now >= lastUpdatedMs` would be stale. From 71,583 minutes it wraps back to small positive values. The model shows neither.
- `Intended.OnApkDownloadedIntended`: records the number of the last accepted result as the package's version. This is correct only while at most one download is in progress. With two overlapping cycles, a download is credited to the later result, whichever request produced it.
- Null values the code passes through without inspecting are not modelled: a null manifest array, a null URL given to a single-URL overload, a null version name, a null exception. The model has no value to stand for them.

## Findings

| source | as written | input that shows it | evidently intended | confidence | as-written member | corrected member |
|---|---|---|---|---|---|---|
| appupdatechecker2/src/main/java/com/liskovsoft/appupdatechecker2/AppUpdateChecker.java:80-88 | the reported version number is persisted (line 81) and then compared with the number read back (line 83), so the comparison always holds and any existing file at the stored path is surfaced as the update | stored version 4 downloaded to `/data/app.apk`, file still present, version 5 reported: the version-4 package is reported as the update and no download starts | reuse the package only when it was downloaded for the reported version. Record, when a download completes, the version it was made for, and compare with that record. The persisted number cannot serve, because it is written before the download completes and stays written when the download fails | medium; not executed | `Intended.StalePackageIsSurfaced` (on `Coordinator.OnChangelogReceived`) | `Intended.OnChangelogReceivedIntended` |

The event-sequence model in `Trace` runs the code's handler, because it
describes what the code does. The corrected coordinator in `Intended` runs
the same events. `Intended.RunIntendedKeepsBase` proves that it reaches the
same settings and changelog. `Intended.ReuseOnlyPackageOfReportedVersion`
proves that whenever it reuses a package, that package was downloaded for
the reported version.
