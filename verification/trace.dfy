/**
  Sequences of events delivered to the coordinator one at a time, with
  reference definitions of what the state must be after a sequence and the
  lemmas relating the two.
 */
module Trace {
  import opened Wrappers
  import opened SettingsStore
  import opened Coordinator

  /** One call into the coordinator: an entry point used by the host or a collaborator callback. */
  datatype Event =
    | Check(urls: seq<Url>, now: int)
    | ForceCheck(urls: seq<Url>)
    | ChangelogReceived(isLatestVersion: bool, versionName: string, versionNumber: int,
                        changelog: Option<Changelog>, downloadUris: Option<seq<Uri>>,
                        fileExists: Option<string> -> bool)
    | ApkDownloaded(path: Option<string>, now: int)
    | CheckError(error: Exception)
    | DownloadError(error: Exception)
    | Enable(enabled: bool)

  /** Whether an event is a version-check result the coordinator acts on. */
  predicate IsAccepted(ev: Event)
  {
    ev.ChangelogReceived? && Accepts(ev.isLatestVersion, ev.downloadUris)
  }

  /** Delivers one event. */
  function Apply(c: Checker, ev: Event): (r: Step)
    ensures |r.actions| <= 1
    ensures r.state.settings.enabled == if ev.Enable? then ev.enabled else c.settings.enabled
    ensures r.state.settings.minInterval == c.settings.minInterval
    ensures forall a :: a in r.actions && a.CallChecker? ==>
      ev.ForceCheck? || (ev.Check? && c.settings.enabled)
  {
    match ev
    case Check(urls, now) => CheckForUpdates(c, urls, now)
    case ForceCheck(urls) => ForceCheckForUpdates(c, urls)
    case ChangelogReceived(isLatest, name, number, changelog, uris, fileExists) =>
      OnChangelogReceived(c, isLatest, name, number, changelog, uris, fileExists)
    case ApkDownloaded(path, now) => OnApkDownloaded(c, path, now)
    case CheckError(e) => OnCheckError(c, e)
    case DownloadError(e) => OnDownloadError(c, e)
    case Enable(enabled) => Step(SetEnabled(c, enabled), [])
  }

  /** Delivers the events in order, collecting the calls made. */
  function Run(c: Checker, evs: seq<Event>): (r: Step)
    ensures |r.actions| <= |evs|
    ensures r.state.settings.minInterval == c.settings.minInterval
    decreases |evs|
  {
    if evs == [] then Quiet(c)
    else
      var first := Apply(c, evs[0]);
      var rest := Run(first.state, evs[1..]);
      Step(rest.state, first.actions + rest.actions)
  }

  /** Running a single event is applying it. */
  lemma RunOne(c: Checker, ev: Event)
    ensures Run(c, [ev]) == Apply(c, ev)
  {
    assert [ev][1..] == [];
  }

  /** Running two sequences one after the other is running their concatenation. */
  lemma {:induction false} RunAppend(c: Checker, a: seq<Event>, b: seq<Event>)
    ensures Run(c, a + b).state == Run(Run(c, a).state, b).state
    ensures Run(c, a + b).actions == Run(c, a).actions + Run(Run(c, a).state, b).actions
    decreases |a|
  {
    if a == [] {
      assert a + b == b;
    } else {
      assert (a + b)[0] == a[0];
      assert (a + b)[1..] == a[1..] + b;
      RunAppend(Apply(c, a[0]).state, a[1..], b);
    }
  }

  /** Running a sequence extended by one event is applying that event to the state it reached. */
  lemma RunSnoc(c: Checker, evs: seq<Event>, ev: Event)
    ensures Run(c, evs + [ev]).state == Apply(Run(c, evs).state, ev).state
    ensures Run(c, evs + [ev]).actions == Run(c, evs).actions + Apply(Run(c, evs).state, ev).actions
  {
    RunAppend(c, evs, [ev]);
    RunOne(Run(c, evs).state, ev);
  }

  // Reference definitions: each reads the sequence from its most recent event backwards.

  /** The changelog of the most recent accepted version-check result, or `init` when there is none. */
  function LastChangelog(init: Option<Changelog>, evs: seq<Event>): Option<Changelog>
  {
    if evs == [] then init
    else if IsAccepted(Last(evs)) then Last(evs).changelog
    else LastChangelog(init, AllButLast(evs))
  }

  /** The version number of the most recent accepted version-check result, or `init`. */
  function LastVersionNumber(init: int, evs: seq<Event>): int
  {
    if evs == [] then init
    else if IsAccepted(Last(evs)) then Last(evs).versionNumber
    else LastVersionNumber(init, AllButLast(evs))
  }

  /** The path of the most recent download that produced one, or `init`. */
  function LastApkPath(init: Option<string>, evs: seq<Event>): Option<string>
  {
    if evs == [] then init
    else if Last(evs).ApkDownloaded? && Last(evs).path.Some? then Last(evs).path
    else LastApkPath(init, AllButLast(evs))
  }

  /** The value given to the most recent `Enable`, or `init`. */
  function LastEnabled(init: bool, evs: seq<Event>): bool
  {
    if evs == [] then init
    else if Last(evs).Enable? then Last(evs).enabled
    else LastEnabled(init, AllButLast(evs))
  }

  /** The version name of the most recent accepted version-check result, or `init`. */
  function LastVersionName(init: string, evs: seq<Event>): string
  {
    if evs == [] then init
    else if IsAccepted(Last(evs)) then Last(evs).versionName
    else LastVersionName(init, AllButLast(evs))
  }

  /** The time of the most recent download that produced a path, or `init`. */
  function LastUpdatedMs(init: int, evs: seq<Event>): int
  {
    if evs == [] then init
    else if Last(evs).ApkDownloaded? && Last(evs).path.Some? then Last(evs).now
    else LastUpdatedMs(init, AllButLast(evs))
  }

  function Last(evs: seq<Event>): Event
    requires evs != []
  {
    evs[|evs| - 1]
  }

  function AllButLast(evs: seq<Event>): (r: seq<Event>)
    requires evs != []
    ensures |r| == |evs| - 1
    ensures r + [Last(evs)] == evs
  {
    evs[..|evs| - 1]
  }

  /** After any sequence, the changelog in memory is the one of the most recent accepted check. */
  lemma {:induction false} RunKeepsLastChangelog(c: Checker, evs: seq<Event>)
    ensures Run(c, evs).state.changeLog == LastChangelog(c.changeLog, evs)
    decreases |evs|
  {
    if evs != [] {
      var prefix := AllButLast(evs);
      RunSnoc(c, prefix, Last(evs));
      RunKeepsLastChangelog(c, prefix);
    }
  }

  /** After any sequence, the persisted version number is the one of the most recent accepted check. */
  lemma {:induction false} RunKeepsLastVersionNumber(c: Checker, evs: seq<Event>)
    ensures Run(c, evs).state.settings.latestVersionNumber
         == LastVersionNumber(c.settings.latestVersionNumber, evs)
    decreases |evs|
  {
    if evs != [] {
      var prefix := AllButLast(evs);
      RunSnoc(c, prefix, Last(evs));
      RunKeepsLastVersionNumber(c, prefix);
    }
  }

  /** After any sequence, the persisted package path is the one of the most recent completed download. */
  lemma {:induction false} RunKeepsLastApkPath(c: Checker, evs: seq<Event>)
    ensures Run(c, evs).state.settings.apkPath == LastApkPath(c.settings.apkPath, evs)
    decreases |evs|
  {
    if evs != [] {
      var prefix := AllButLast(evs);
      RunSnoc(c, prefix, Last(evs));
      RunKeepsLastApkPath(c, prefix);
    }
  }

  /** After any sequence, the persisted version name is the one of the most recent accepted check. */
  lemma {:induction false} RunKeepsLastVersionName(c: Checker, evs: seq<Event>)
    ensures Run(c, evs).state.settings.latestVersionName
         == LastVersionName(c.settings.latestVersionName, evs)
    decreases |evs|
  {
    if evs != [] {
      var prefix := AllButLast(evs);
      RunSnoc(c, prefix, Last(evs));
      RunKeepsLastVersionName(c, prefix);
    }
  }

  /**
    After any sequence, the last-updated time is the time of the most recent
    download that produced a path: checks, ignored results and errors never
    move the staleness clock.
   */
  lemma {:induction false} RunKeepsLastUpdatedMs(c: Checker, evs: seq<Event>)
    ensures Run(c, evs).state.settings.lastUpdatedMs == LastUpdatedMs(c.settings.lastUpdatedMs, evs)
    decreases |evs|
  {
    if evs != [] {
      var prefix := AllButLast(evs);
      RunSnoc(c, prefix, Last(evs));
      RunKeepsLastUpdatedMs(c, prefix);
    }
  }

  /** After any sequence, the enabled flag is the value most recently set. */
  lemma {:induction false} RunKeepsLastEnabled(c: Checker, evs: seq<Event>)
    ensures Run(c, evs).state.settings.enabled == LastEnabled(c.settings.enabled, evs)
    decreases |evs|
  {
    if evs != [] {
      var prefix := AllButLast(evs);
      RunSnoc(c, prefix, Last(evs));
      RunKeepsLastEnabled(c, prefix);
    }
  }

  /**
    A completed download, whatever came before it, notifies the listener
    with the changelog of the most recent accepted check and the new path.
   */
  lemma DownloadNotifiesLastChangelog(c: Checker, evs: seq<Event>, path: string, now: int)
    ensures var r := Run(c, evs + [ApkDownloaded(Some(path), now)]);
      && r.actions == Run(c, evs).actions + [NotifyFound(LastChangelog(c.changeLog, evs), Some(path))]
      && r.state.settings.apkPath == Some(path)
      && r.state.settings.lastUpdatedMs == now
  {
    RunSnoc(c, evs, ApkDownloaded(Some(path), now));
    RunKeepsLastChangelog(c, evs);
  }

  /** Every notification of a found update carries the changelog and path the new state holds. */
  lemma NotificationMatchesCommittedState(c: Checker, ev: Event)
    ensures var r := Apply(c, ev);
      forall a :: a in r.actions && a.NotifyFound? ==>
        a.changelog == r.state.changeLog && a.path == r.state.settings.apkPath
  {
  }

  /** Whether a sequence contains only collaborator errors. */
  predicate OnlyErrors(evs: seq<Event>)
  {
    forall i :: 0 <= i < |evs| ==> evs[i].CheckError? || evs[i].DownloadError?
  }

  /** Errors are forwarded one for one, in order, and never change the state. */
  lemma {:induction false} ErrorsAreForwarded(c: Checker, evs: seq<Event>)
    requires OnlyErrors(evs)
    ensures Run(c, evs).state == c
    ensures |Run(c, evs).actions| == |evs|
    ensures forall i :: 0 <= i < |evs| ==> Run(c, evs).actions[i] == NotifyError(evs[i].error)
    decreases |evs|
  {
    if evs != [] {
      ErrorsAreForwarded(c, evs[1..]);
      var r := Run(c, evs);
      forall i | 0 <= i < |evs|
        ensures r.actions[i] == NotifyError(evs[i].error)
      {
        if i > 0 {
          assert evs[1..][i - 1] == evs[i];
        }
      }
    }
  }

  /** Whether a sequence neither forces a check nor turns checking on. */
  predicate NeverForcesOrEnables(evs: seq<Event>)
  {
    forall i :: 0 <= i < |evs| ==> !evs[i].ForceCheck? && !(evs[i].Enable? && evs[i].enabled)
  }

  /** While checking is disabled and no check is forced, the version checker is never called. */
  lemma {:induction false} DisabledNeverCallsChecker(c: Checker, evs: seq<Event>)
    requires !c.settings.enabled
    requires NeverForcesOrEnables(evs)
    ensures forall a :: a in Run(c, evs).actions ==> !a.CallChecker?
    decreases |evs|
  {
    if evs != [] {
      var first := Apply(c, evs[0]);
      assert NeverForcesOrEnables(evs[1..]) by {
        forall i | 0 <= i < |evs[1..]|
          ensures !evs[1..][i].ForceCheck? && !(evs[1..][i].Enable? && evs[1..][i].enabled)
        {
          assert evs[1..][i] == evs[i + 1];
        }
      }
      DisabledNeverCallsChecker(first.state, evs[1..]);
    }
  }

  /**
    One full cycle with no package on disk: the check reaches the version
    checker, the newer version starts a download, and the download surfaces
    the changelog of that same check with the new path, which is persisted
    together with the version and the download time.
   */
  lemma FullCycle(c: Checker, urls: seq<Url>, checkedAt: int,
                  name: string, number: int, changelog: Option<Changelog>, uris: seq<Uri>,
                  fileExists: Option<string> -> bool, path: string, downloadedAt: int)
    requires c.settings.enabled && IsStale(c.settings, checkedAt)
    requires !fileExists(c.settings.apkPath)
    ensures var r := Run(c, [Check(urls, checkedAt),
                             ChangelogReceived(false, name, number, changelog, Some(uris), fileExists),
                             ApkDownloaded(Some(path), downloadedAt)]);
      && r.actions == [CallChecker(urls), CallDownloader(uris), NotifyFound(changelog, Some(path))]
      && r.state.changeLog == changelog
      && r.state.settings.latestVersionNumber == number
      && r.state.settings.apkPath == Some(path)
      && r.state.settings.lastUpdatedMs == downloadedAt
      && r.state.settings.enabled == c.settings.enabled
  {
    var e1 := Check(urls, checkedAt);
    var e2 := ChangelogReceived(false, name, number, changelog, Some(uris), fileExists);
    var e3 := ApkDownloaded(Some(path), downloadedAt);
    RunSnoc(c, [e1, e2], e3);
    RunSnoc(c, [e1], e2);
    RunOne(c, e1);
    assert [e1] + [e2] == [e1, e2];
    assert [e1, e2] + [e3] == [e1, e2, e3];
  }

  /** Sixty-minute interval, last update ten minutes ago: a non-forced check does nothing. */
  lemma RecentCheckIsNoOp(c: Checker, urls: seq<Url>, now: int)
    requires c.settings.enabled
    requires c.settings.minInterval == 60
    requires c.settings.lastUpdatedMs == now - 10 * MillisecondsInMinute
    ensures Run(c, [Check(urls, now)]) == Quiet(c)
  {
    RunOne(c, Check(urls, now));
  }

  /**
    Version 5 reported over a stored version 4 with no package on disk: the
    download is requested, and its completion surfaces the package and
    persists version 5 with the new path.
   */
  lemma NewerVersionIsDownloaded(c: Checker, changelog: Option<Changelog>, u: Uri, fileExists: Option<string> -> bool)
    requires c.settings.latestVersionNumber == 4
    requires !fileExists(c.settings.apkPath)
    ensures var r := Run(c, [ChangelogReceived(false, "", 5, changelog, Some([u]), fileExists),
                             ApkDownloaded(Some("/data/app.apk"), 0)]);
      && r.actions == [CallDownloader([u]), NotifyFound(changelog, Some("/data/app.apk"))]
      && r.state.settings.latestVersionNumber == 5
      && r.state.settings.apkPath == Some("/data/app.apk")
  {
    var e1 := ChangelogReceived(false, "", 5, changelog, Some([u]), fileExists);
    var e2 := ApkDownloaded(Some("/data/app.apk"), 0);
    RunSnoc(c, [e1], e2);
    RunOne(c, e1);
    assert [e1] + [e2] == [e1, e2];
  }
}
