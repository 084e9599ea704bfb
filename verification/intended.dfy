/**
  The "already downloaded" gate as it is evidently meant to work: reuse the
  package on disk only when it was downloaded for the version now reported.

  The code persists the reported version number as soon as a result is
  accepted and then compares the reported number with it, so any package on
  disk is reused, even one of an older version. The persisted number cannot
  serve as the package's version either, because it is written before the
  download completes (and stays written when the download fails). The
  corrected coordinator therefore records, when a download completes, the
  version that download was made for, and compares against that record.
 */
module Intended {
  import opened Wrappers
  import opened SettingsStore
  import opened Coordinator
  import opened Trace

  /**
    The coordinator's state plus the version number the package at the
    stored path was downloaded for (None when no download is known).
   */
  datatype Fixed = Fixed(base: Checker, apkVersion: Option<int>)

  datatype FixedStep = FixedStep(state: Fixed, actions: seq<Action>)

  /**
    The version-check result handler with the corrected gate: the package on
    disk is reused only when it was downloaded for the reported version.
    The settings and the changelog are updated exactly as the code does.
   */
  function OnChangelogReceivedIntended(
    f: Fixed, isLatestVersion: bool, versionName: string, versionNumber: int,
    changelog: Option<Changelog>, downloadUris: Option<seq<Uri>>,
    fileExists: Option<string> -> bool): (r: FixedStep)
    ensures r.state.base == OnChangelogReceived(f.base, isLatestVersion, versionName, versionNumber,
                                                changelog, downloadUris, fileExists).state
    ensures r.state.apkVersion == f.apkVersion
    ensures !Accepts(isLatestVersion, downloadUris) ==> r.actions == []
    ensures Accepts(isLatestVersion, downloadUris) ==>
      ((r.actions == [NotifyFound(changelog, f.base.settings.apkPath)])
       <==> (f.apkVersion == Some(versionNumber) && fileExists(f.base.settings.apkPath)))
    ensures Accepts(isLatestVersion, downloadUris) ==>
      ((r.actions == [CallDownloader(downloadUris.value)])
       <==> (f.apkVersion != Some(versionNumber) || !fileExists(f.base.settings.apkPath)))
  {
    if Accepts(isLatestVersion, downloadUris) then
      var reuse := f.apkVersion == Some(versionNumber) && fileExists(f.base.settings.apkPath);
      var next := Checker(PersistVersion(f.base.settings, versionName, versionNumber), changelog);
      if reuse then
        FixedStep(Fixed(next, f.apkVersion), [NotifyFound(changelog, f.base.settings.apkPath)])
      else
        FixedStep(Fixed(next, f.apkVersion), [CallDownloader(downloadUris.value)])
    else
      FixedStep(f, [])
  }

  /**
    A completed download behaves as in the code and also records the version
    it was made for: the number persisted by the most recent accepted result
    (assuming at most one download is in progress at a time).
   */
  function OnApkDownloadedIntended(f: Fixed, path: Option<string>, now: int): (r: FixedStep)
    ensures r.state.base == OnApkDownloaded(f.base, path, now).state
    ensures r.actions == OnApkDownloaded(f.base, path, now).actions
    ensures path.Some? ==> r.state.apkVersion == Some(f.base.settings.latestVersionNumber)
    ensures path.None? ==> r.state.apkVersion == f.apkVersion
  {
    var step := OnApkDownloaded(f.base, path, now);
    var version := if path.Some? then Some(f.base.settings.latestVersionNumber) else f.apkVersion;
    FixedStep(Fixed(step.state, version), step.actions)
  }

  /** Delivers one event to the corrected coordinator; the other events behave as in the code. */
  function ApplyIntended(f: Fixed, ev: Event): (r: FixedStep)
    ensures r.state.base == Apply(f.base, ev).state
    ensures !ev.ChangelogReceived? ==> r.actions == Apply(f.base, ev).actions
    ensures !ev.ApkDownloaded? ==> r.state.apkVersion == f.apkVersion
  {
    match ev
    case ChangelogReceived(isLatest, name, number, changelog, uris, fileExists) =>
      OnChangelogReceivedIntended(f, isLatest, name, number, changelog, uris, fileExists)
    case ApkDownloaded(path, now) => OnApkDownloadedIntended(f, path, now)
    case _ =>
      var step := Apply(f.base, ev);
      FixedStep(Fixed(step.state, f.apkVersion), step.actions)
  }

  /** Delivers the events in order to the corrected coordinator. */
  function RunIntended(f: Fixed, evs: seq<Event>): (r: FixedStep)
    ensures |r.actions| <= |evs|
    decreases |evs|
  {
    if evs == [] then FixedStep(f, [])
    else
      var first := ApplyIntended(f, evs[0]);
      var rest := RunIntended(first.state, evs[1..]);
      FixedStep(rest.state, first.actions + rest.actions)
  }

  /** Running two sequences one after the other is running their concatenation. */
  lemma {:induction false} RunIntendedAppend(f: Fixed, a: seq<Event>, b: seq<Event>)
    ensures RunIntended(f, a + b).state == RunIntended(RunIntended(f, a).state, b).state
    ensures RunIntended(f, a + b).actions
         == RunIntended(f, a).actions + RunIntended(RunIntended(f, a).state, b).actions
    decreases |a|
  {
    if a == [] {
      assert a + b == b;
    } else {
      var first := ApplyIntended(f, a[0]);
      assert (a + b)[0] == a[0];
      assert (a + b)[1..] == a[1..] + b;
      RunIntendedAppend(first.state, a[1..], b);
      var tail := RunIntended(first.state, a[1..] + b);
      assert RunIntended(f, a + b) == FixedStep(tail.state, first.actions + tail.actions);
      assert RunIntended(f, a).actions == first.actions + RunIntended(first.state, a[1..]).actions;
    }
  }

  /** Running a sequence extended by one event is applying that event to the state it reached. */
  lemma RunIntendedSnoc(f: Fixed, evs: seq<Event>, ev: Event)
    ensures RunIntended(f, evs + [ev]).state == ApplyIntended(RunIntended(f, evs).state, ev).state
    ensures RunIntended(f, evs + [ev]).actions
         == RunIntended(f, evs).actions + ApplyIntended(RunIntended(f, evs).state, ev).actions
  {
    RunIntendedAppend(f, evs, [ev]);
    assert [ev][1..] == [];
  }

  /** The correction changes only which calls are made: the settings and the changelog evolve as in the code. */
  lemma {:induction false} RunIntendedKeepsBase(f: Fixed, evs: seq<Event>)
    ensures RunIntended(f, evs).state.base == Run(f.base, evs).state
    decreases |evs|
  {
    if evs != [] {
      RunIntendedKeepsBase(ApplyIntended(f, evs[0]).state, evs[1..]);
    }
  }

  /**
    The version the most recent completed download was made for: the number
    of the most recent accepted result before it, read from the persisted
    number `initNumber` when there is none; `initApk` when no download completed.
    This is the right version assuming one check cycle, and so at most one
    download, is in progress at a time.
   */
  function DownloadedVersion(initApk: Option<int>, initNumber: int, evs: seq<Event>): Option<int>
  {
    if evs == [] then initApk
    else if Last(evs).ApkDownloaded? && Last(evs).path.Some? then
      Some(LastVersionNumber(initNumber, AllButLast(evs)))
    else DownloadedVersion(initApk, initNumber, AllButLast(evs))
  }

  /** After any sequence, the recorded package version is the version the most recent download was made for. */
  lemma {:induction false} RunIntendedRecordsDownloadedVersion(f: Fixed, evs: seq<Event>)
    ensures RunIntended(f, evs).state.apkVersion
         == DownloadedVersion(f.apkVersion, f.base.settings.latestVersionNumber, evs)
    decreases |evs|
  {
    if evs != [] {
      var prefix := AllButLast(evs);
      RunIntendedSnoc(f, prefix, Last(evs));
      RunIntendedRecordsDownloadedVersion(f, prefix);
      RunIntendedKeepsBase(f, prefix);
      RunKeepsLastVersionNumber(f.base, prefix);
    }
  }

  /**
    Whatever came before, when an accepted result for version `number` reuses
    a package, that package is the one at the path of the most recent
    completed download, and that download was made for version `number`.
   */
  lemma ReuseOnlyPackageOfReportedVersion(
    f: Fixed, evs: seq<Event>, name: string, number: int, changelog: Option<Changelog>,
    uris: seq<Uri>, fileExists: Option<string> -> bool, path: Option<string>)
    requires OnChangelogReceivedIntended(RunIntended(f, evs).state, false, name, number, changelog, Some(uris),
                                         fileExists).actions == [NotifyFound(changelog, path)]
    ensures DownloadedVersion(f.apkVersion, f.base.settings.latestVersionNumber, evs) == Some(number)
    ensures path == LastApkPath(f.base.settings.apkPath, evs)
    ensures fileExists(path)
  {
    RunIntendedRecordsDownloadedVersion(f, evs);
    RunIntendedKeepsBase(f, evs);
    RunKeepsLastApkPath(f.base, evs);
  }

  /**
    The code's handler and the corrected one always reach the same settings
    and changelog, and make the same calls exactly when there is no existing
    package recorded for a version other than the reported one.
   */
  lemma AgreesUnlessStalePackage(
    f: Fixed, isLatestVersion: bool, versionName: string, versionNumber: int,
    changelog: Option<Changelog>, downloadUris: Option<seq<Uri>>,
    fileExists: Option<string> -> bool)
    ensures var asWritten := OnChangelogReceived(f.base, isLatestVersion, versionName, versionNumber,
                                                 changelog, downloadUris, fileExists);
            var intended := OnChangelogReceivedIntended(f, isLatestVersion, versionName, versionNumber,
                                                        changelog, downloadUris, fileExists);
      && intended.state.base == asWritten.state
      && ((intended.actions == asWritten.actions)
          <==> !(Accepts(isLatestVersion, downloadUris)
                 && fileExists(f.base.settings.apkPath)
                 && f.apkVersion != Some(versionNumber)))
  {
  }

  /**
    Version 4 was downloaded to /data/app.apk and the file is still there;
    version 5 is reported. As written, the old package is surfaced as the
    update and nothing is downloaded; the corrected coordinator downloads.
   */
  lemma StalePackageIsSurfaced()
    ensures var c := Checker(Settings(0, 60, true, "4", 4, Some("/data/app.apk")), None);
            var onDisk := (p: Option<string>) => p == Some("/data/app.apk");
            var asWritten := OnChangelogReceived(c, false, "5", 5, Some(["v5"]), Some(["u"]), onDisk);
            var intended := OnChangelogReceivedIntended(Fixed(c, Some(4)), false, "5", 5, Some(["v5"]), Some(["u"]), onDisk);
      && asWritten.actions == [NotifyFound(Some(["v5"]), Some("/data/app.apk"))]
      && asWritten.state.settings.latestVersionNumber == 5
      && intended.actions == [CallDownloader(["u"])]
  {
  }

  /**
    Version 4 on disk; version 5 is accepted, its download fails, and version
    5 is reported again. The persisted number is now 5, but the package on
    disk is still the version-4 one, so the corrected coordinator downloads again.
   */
  lemma FailedDownloadIsNotReused()
    ensures var c := Checker(Settings(0, 60, true, "4", 4, Some("/data/app.apk")), None);
            var onDisk := (p: Option<string>) => p == Some("/data/app.apk");
            var report := ChangelogReceived(false, "5", 5, Some(["v5"]), Some(["u"]), onDisk);
            var evs := [report, DownloadError(Exception("timeout")), report];
      && RunIntended(Fixed(c, Some(4)), evs).actions
         == [CallDownloader(["u"]), NotifyError(Exception("timeout")), CallDownloader(["u"])]
      && Run(c, evs).actions
         == [NotifyFound(Some(["v5"]), Some("/data/app.apk")), NotifyError(Exception("timeout")),
             NotifyFound(Some(["v5"]), Some("/data/app.apk"))]
  {
    var c := Checker(Settings(0, 60, true, "4", 4, Some("/data/app.apk")), None);
    var onDisk := (p: Option<string>) => p == Some("/data/app.apk");
    var report := ChangelogReceived(false, "5", 5, Some(["v5"]), Some(["u"]), onDisk);
    var e2 := DownloadError(Exception("timeout"));
    RunIntendedSnoc(Fixed(c, Some(4)), [report, e2], report);
    RunIntendedSnoc(Fixed(c, Some(4)), [report], e2);
    assert [report, e2] + [report] == [report, e2, report];
    assert [report] + [e2] == [report, e2];
    assert [report][1..] == [];
    RunSnoc(c, [report, e2], report);
    RunSnoc(c, [report], e2);
    RunOne(c, report);
  }
}
