/**
  The update coordinator: each public entry point and each collaborator
  callback is a pure transition from the coordinator's state to a new state
  plus the list of outbound calls it makes (to the version checker, to the
  downloader, or to the host listener).
 */
module Coordinator {
  import opened Wrappers
  import opened SettingsStore

  type Url = string
  type Uri = string
  type Changelog = seq<string>

  /** An error reported by a collaborator; the coordinator never looks inside it. */
  datatype Exception = Exception(message: string)

  /** An outbound call made by the coordinator. */
  datatype Action =
    | CallChecker(urls: seq<Url>)                                    // version checker: check these manifests
    | CallDownloader(uris: seq<Uri>)                                 // downloader: fetch one of these packages
    | NotifyFound(changelog: Option<Changelog>, path: Option<string>) // listener: an update is ready
    | NotifyError(error: Exception)                                  // listener: a collaborator failed

  /** The persisted settings and the changelog held in memory between a check and its download. */
  datatype Checker = Checker(settings: Settings, changeLog: Option<Changelog>)

  /** The outcome of one transition. */
  datatype Step = Step(state: Checker, actions: seq<Action>)

  /** A transition that changes nothing and calls nobody. */
  function Quiet(c: Checker): Step
  {
    Step(c, [])
  }

  /** Checks are never postponed. */
  const CheckPostponed: bool := false

  /** Reads the persisted enabled flag. */
  function IsEnabled(c: Checker): bool
  {
    c.settings.enabled
  }

  /** Sets the enabled flag; nothing else in the state changes. */
  function SetEnabled(c: Checker, enabled: bool): (r: Checker)
    ensures IsEnabled(r) == enabled
    ensures r.settings.(enabled := c.settings.enabled) == c.settings
    ensures r.changeLog == c.changeLog
  {
    c.(settings := c.settings.(enabled := enabled))
  }

  /** Hands the manifests to the version checker unless checks are postponed. */
  function CheckForUpdatesInt(c: Checker, urls: seq<Url>): (r: Step)
    ensures r.state == c
    ensures r.actions == [CallChecker(urls)]
  {
    if !CheckPostponed then Step(c, [CallChecker(urls)]) else Quiet(c)
  }

  /**
    A non-forced check reaches the version checker exactly when checking is
    enabled and the settings are stale; it never changes the state.
   */
  function CheckForUpdates(c: Checker, urls: seq<Url>, now: int): (r: Step)
    ensures r.state == c
    ensures r.actions != [] <==> c.settings.enabled && IsStale(c.settings, now)
    ensures r.actions != [] ==> r.actions == [CallChecker(urls)]
  {
    if IsEnabled(c) && IsStale(c.settings, now) then CheckForUpdatesInt(c, urls) else Quiet(c)
  }

  /** The single-manifest overload is the one-element array version. */
  function CheckForUpdatesOne(c: Checker, url: Url, now: int): (r: Step)
    ensures r == CheckForUpdates(c, [url], now)
    ensures r.actions != [] <==> c.settings.enabled && IsStale(c.settings, now)
  {
    CheckForUpdates(c, [url], now)
  }

  /** A forced check always reaches the version checker, whatever the enabled flag or the time. */
  function ForceCheckForUpdates(c: Checker, urls: seq<Url>): (r: Step)
    ensures r.state == c
    ensures r.actions == [CallChecker(urls)]
  {
    CheckForUpdatesInt(c, urls)
  }

  /** The single-manifest overload is the one-element array version. */
  function ForceCheckForUpdatesOne(c: Checker, url: Url): (r: Step)
    ensures r == ForceCheckForUpdates(c, [url])
    ensures r.actions == [CallChecker([url])]
  {
    ForceCheckForUpdates(c, [url])
  }

  /** Whether a version-check result is acted on: a newer version with somewhere to download it from. */
  predicate Accepts(isLatestVersion: bool, downloadUris: Option<seq<Uri>>)
  {
    !isLatestVersion && downloadUris.Some?
  }

  /**
    The "already downloaded" gate as the code writes it: the reported number
    is compared with the number read back from the settings, and the file at
    the stored package path must exist.
   */
  predicate AlreadyDownloaded(s: Settings, number: int, fileExists: Option<string> -> bool)
  {
    number == s.latestVersionNumber && fileExists(s.apkPath)
  }

  /**
    Once the reported version has been persisted, reading the number back
    returns it, so the gate depends only on whether the package file exists.
   */
  lemma GateIgnoresVersion(s: Settings, name: string, number: int, fileExists: Option<string> -> bool)
    ensures AlreadyDownloaded(PersistVersion(s, name, number), number, fileExists) == fileExists(s.apkPath)
  {
  }

  /**
    Handles a version-check result. A result that is the latest version, or
    that has no download locations, is ignored. Otherwise the changelog is
    kept in memory, the version is persisted, and the package already on disk
    is surfaced if the file exists; if not, a download is started.
   */
  function OnChangelogReceived(
    c: Checker, isLatestVersion: bool, versionName: string, versionNumber: int,
    changelog: Option<Changelog>, downloadUris: Option<seq<Uri>>,
    fileExists: Option<string> -> bool): (r: Step)
    ensures !Accepts(isLatestVersion, downloadUris) ==> r.state == c && r.actions == []
    ensures Accepts(isLatestVersion, downloadUris) ==>
      && r.state.changeLog == changelog
      && r.state.settings == PersistVersion(c.settings, versionName, versionNumber)
    ensures Accepts(isLatestVersion, downloadUris) && fileExists(c.settings.apkPath) ==>
      r.actions == [NotifyFound(changelog, c.settings.apkPath)]
    ensures Accepts(isLatestVersion, downloadUris) && !fileExists(c.settings.apkPath) ==>
      r.actions == [CallDownloader(downloadUris.value)]
    ensures r.state.settings.apkPath == c.settings.apkPath
    ensures r.state.settings.lastUpdatedMs == c.settings.lastUpdatedMs
    ensures r.state.settings.enabled == c.settings.enabled
  {
    if Accepts(isLatestVersion, downloadUris) then
      var settings := PersistVersion(c.settings, versionName, versionNumber);
      var next := Checker(settings, changelog);
      if AlreadyDownloaded(settings, versionNumber, fileExists) then
        Step(next, [NotifyFound(changelog, settings.apkPath)])
      else
        Step(next, [CallDownloader(downloadUris.value)])
    else
      Quiet(c)
  }

  /**
    Handles a finished download. A missing path is ignored. Otherwise the
    path and the current time are persisted and the listener receives the
    changelog kept from the last accepted check together with the path.
   */
  function OnApkDownloaded(c: Checker, path: Option<string>, now: int): (r: Step)
    ensures path.None? ==> r.state == c && r.actions == []
    ensures path.Some? ==>
      && r.state.settings.apkPath == path
      && r.state.settings.lastUpdatedMs == now
      && r.actions == [NotifyFound(c.changeLog, path)]
    ensures r.state.changeLog == c.changeLog
    ensures r.state.settings.latestVersionNumber == c.settings.latestVersionNumber
    ensures r.state.settings.latestVersionName == c.settings.latestVersionName
    ensures r.state.settings.enabled == c.settings.enabled
    ensures r.state.settings.minInterval == c.settings.minInterval
  {
    match path
    case None => Quiet(c)
    case Some(p) =>
      var next := c.(settings := PersistDownload(c.settings, p, now));
      Step(next, [NotifyFound(c.changeLog, path)])
  }

  /** Hands a collaborator's error to the listener without touching the state. */
  function ForwardError(c: Checker, e: Exception): Step
  {
    Step(c, [NotifyError(e)])
  }

  /** A version-check failure is forwarded verbatim; the state is unchanged. */
  function OnCheckError(c: Checker, e: Exception): (r: Step)
    ensures r.state == c
    ensures r.actions == [NotifyError(e)]
  {
    ForwardError(c, e)
  }

  /** A download failure is forwarded verbatim; the state is unchanged. */
  function OnDownloadError(c: Checker, e: Exception): (r: Step)
    ensures r.state == c
    ensures r.actions == [NotifyError(e)]
  {
    ForwardError(c, e)
  }

  /** Reading the flag back after setting it returns what was set. */
  lemma SetThenIsEnabled(c: Checker, enabled: bool)
    ensures IsEnabled(SetEnabled(c, enabled)) == enabled
    ensures SetEnabled(c, enabled).settings.apkPath == c.settings.apkPath
    ensures SetEnabled(c, IsEnabled(c)) == c
  {
  }
}
