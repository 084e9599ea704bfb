/**
  The persisted settings the update coordinator reads and writes, as a plain
  record. A write is a record update, so a read returns exactly what was last
  written: the store is assumed to be synchronous and faithful.
 */
module SettingsStore {
  import opened Wrappers

  /** The minimum check interval is stored in minutes and compared in milliseconds. */
  const MillisecondsInMinute: int := 60_000

  datatype Settings = Settings(
    lastUpdatedMs: int,          // when the last package was downloaded
    minInterval: int,            // minutes between two non-forced checks
    enabled: bool,               // whether non-forced checks run at all
    latestVersionName: string,
    latestVersionNumber: int,
    apkPath: Option<string>)     // local path of the last downloaded package

  /**
    The settings are stale when strictly more than the minimum interval has
    elapsed since the last update; `now` is the current wall-clock time.
   */
  predicate IsStale(s: Settings, now: int)
    ensures now == s.lastUpdatedMs + s.minInterval * MillisecondsInMinute ==> !IsStale(s, now)
    ensures now == s.lastUpdatedMs + s.minInterval * MillisecondsInMinute + 1 ==> IsStale(s, now)
    ensures IsStale(s, now) && s.minInterval >= 0 ==> now > s.lastUpdatedMs
  {
    now - s.lastUpdatedMs > s.minInterval * MillisecondsInMinute
  }

  /** Being exactly one interval after the last update is not stale; one millisecond later is. */
  lemma StaleIsStrict(s: Settings, now: int)
    requires now == s.lastUpdatedMs + s.minInterval * MillisecondsInMinute
    ensures !IsStale(s, now)
    ensures IsStale(s, now + 1)
  {
  }

  /** Staleness depends only on the elapsed time, and once stale the settings stay stale as time passes. */
  lemma StaleIsMonotone(s: Settings, now: int, later: int)
    requires now <= later
    ensures IsStale(s, now) ==> IsStale(s, later)
    ensures IsStale(s, now) <==> s.lastUpdatedMs + s.minInterval * MillisecondsInMinute < now
  {
  }

  /**
    Persisting the version name and then the version number, as the
    coordinator does when a newer version is reported.
   */
  function PersistVersion(s: Settings, name: string, number: int): (r: Settings)
    ensures r.latestVersionNumber == number
    ensures r.latestVersionName == name
    ensures r.(latestVersionName := s.latestVersionName, latestVersionNumber := s.latestVersionNumber) == s
  {
    var named := s.(latestVersionName := name);
    named.(latestVersionNumber := number)
  }

  /**
    Persisting a downloaded package: its path, and the current time as the
    last-updated timestamp.
   */
  function PersistDownload(s: Settings, path: string, now: int): (r: Settings)
    ensures r.apkPath == Some(path)
    ensures r.lastUpdatedMs == now
    ensures !IsStale(r, now) <==> r.minInterval >= 0
    ensures r.(apkPath := s.apkPath, lastUpdatedMs := s.lastUpdatedMs) == s
  {
    var withPath := s.(apkPath := Some(path));
    withPath.(lastUpdatedMs := now)
  }
}
