/**
 * `HarmonyUpdate` and its local `doUpdate`: read the installed and the bundled version,
 * take the remote bytes (or the bundled copy when it is newer), keep the old file as a
 * backup, write the new one, and queue the restart notice when Harmony was loaded.
 */
module Updater {
  import opened Wrappers
  import opened Versions
  import opened Artifact
  import opened Discovery
  import opened Lines

  /** What `HarmonyUpdate` knows about one run once both versions are read. */
  datatype Run = Run(
    harmonyPath: string,    // `Managed/0Harmony.dll`
    includedPath: string,   // the copy bundled with the mod
    current: Version,       // `ParseFileVersion(harmonyPath)`
    included: Version,      // `ParseFileVersion(includedHarmonyPath)`
    harmonyLoaded: bool)    // an assembly named `0Harmony` is already in the app domain

  /** `$"{harmonyPath}.{currentVersion}"`: where the replaced file is kept. */
  function BackupPath(run: Run): (backup: string)
    ensures |backup| > |run.harmonyPath| && backup[..|run.harmonyPath|] == run.harmonyPath
    ensures backup != run.harmonyPath
  {
    run.harmonyPath + "." + ToString(run.current)
  }

  /** The text of the restart notice. */
  function RestartMessage(from: Version, to: Version): string {
    "Harmony updated (" + ToString(from) + " -> " + ToString(to) + ")\nPlease restart for the change to take effect."
  }

  /**
   * Lines 159-160: the bytes to install. Remote bytes win; without them the bundled copy
   * is read, but only when its version is strictly greater than the installed one.
   */
  function Incoming(remote: Bytes, run: Run, fs: FileSystem): (r: Result<Bytes, FileError>)
    ensures remote != [] ==> r == Success(remote)
    ensures remote == [] && !Less(run.current, run.included) ==> r == Success([])
    ensures remote == [] && Less(run.current, run.included) ==>
      if run.includedPath in fs then r == Success(fs[run.includedPath])
      else r == Failure(FileNotFound(run.includedPath))
  {
    if remote == [] && Less(run.current, run.included) then
      if run.includedPath in fs then Success(fs[run.includedPath]) else Failure(FileNotFound(run.includedPath))
    else Success(remote)
  }

  /**
   * Lines 165-166: `File.Move(path, backup)` followed by `File.Write(path, data)`.
   * The old contents move to the backup, the new ones take their place, and nothing
   * else changes.
   */
  function Replaced(fs: FileSystem, path: string, backup: string, data: Bytes): (r: FileSystem)
    requires path in fs && path != backup
    ensures r.Keys == fs.Keys + {backup}
    ensures r[path] == data && r[backup] == fs[path]
    ensures forall p :: p in fs && p != path && p != backup ==> r[p] == fs[p]
  {
    (fs - {path})[backup := fs[path]][path := data]
  }

  /**
   * What `doUpdate` leaves behind: the files, the notices queued for the main menu, and
   * its result: the version now installed, `None` when there was nothing to install, or
   * the exception it threw.
   */
  datatype Effect = Effect(files: FileSystem, notices: seq<string>, result: Result<Option<Version>, FileError>)

  /** `doUpdate` (lines 157-178) as a function of the state before it and the bytes `remote`. */
  function UpdateEffect(fs: FileSystem, notices: seq<string>, remote: Bytes, run: Run, metadata: Metadata): Effect {
    match Incoming(remote, run, fs)
    case Failure(e) => Effect(fs, notices, Failure(e))
    case Success(data) =>
      if data == [] then Effect(fs, notices, Success(None))
      else if run.harmonyPath !in fs then Effect(fs, notices, Failure(FileNotFound(run.harmonyPath)))
      else if BackupPath(run) in fs then Effect(fs, notices, Failure(DestinationExists(BackupPath(run))))
      else
        var written := Replaced(fs, run.harmonyPath, BackupPath(run), data);
        match ParseFileVersion(written, run.harmonyPath, metadata)
        case Failure(e) => Effect(written, notices, Failure(e))
        case Success(v) =>
          Effect(written, if run.harmonyLoaded then notices + [RestartMessage(run.current, v)] else notices, Success(Some(v)))
  }

  /** `doUpdate` changes the files exactly by installing non-empty incoming bytes, or not at all. */
  lemma UpdateInstallsIncoming(fs: FileSystem, notices: seq<string>, remote: Bytes, run: Run, metadata: Metadata)
    ensures var e := UpdateEffect(fs, notices, remote, run, metadata);
      || e.files == fs
      || (&& Incoming(remote, run, fs).Success?
          && Incoming(remote, run, fs).value != []
          && run.harmonyPath in fs && BackupPath(run) !in fs
          && e.files == Replaced(fs, run.harmonyPath, BackupPath(run), Incoming(remote, run, fs).value))
  {
  }

  /** Non-empty remote bytes are installed unchanged, whatever the bundled version. */
  lemma UpdateRemoteWins(fs: FileSystem, notices: seq<string>, remote: Bytes, run: Run, metadata: Metadata)
    requires remote != []
    requires run.harmonyPath in fs && BackupPath(run) !in fs
    ensures UpdateEffect(fs, notices, remote, run, metadata).files == Replaced(fs, run.harmonyPath, BackupPath(run), remote)
  {
  }

  /** Without remote bytes, a strictly newer, non-empty bundled copy is installed. */
  lemma UpdateBundledWhenNewer(fs: FileSystem, notices: seq<string>, run: Run, metadata: Metadata)
    requires Less(run.current, run.included)
    requires run.includedPath in fs && fs[run.includedPath] != []
    requires run.harmonyPath in fs && BackupPath(run) !in fs
    ensures UpdateEffect(fs, notices, [], run, metadata).files ==
      Replaced(fs, run.harmonyPath, BackupPath(run), fs[run.includedPath])
  {
  }

  /** Without remote bytes and without a newer bundled copy, `doUpdate` returns and touches nothing. */
  lemma UpdateNothingToInstall(fs: FileSystem, notices: seq<string>, run: Run, metadata: Metadata)
    requires LessEq(run.included, run.current)
    ensures UpdateEffect(fs, notices, [], run, metadata) == Effect(fs, notices, Success(None))
  {
    LessEqFacts(run.included, run.current, run.current);
  }

  /**
   * The restart notice is queued exactly when an update was written and its version
   * read back, and Harmony was loaded before the run; it names both versions.
   */
  lemma UpdateNotice(fs: FileSystem, notices: seq<string>, remote: Bytes, run: Run, metadata: Metadata)
    ensures var e := UpdateEffect(fs, notices, remote, run, metadata);
      && (e.notices != notices <==> run.harmonyLoaded && e.result.Success? && e.result.value.Some?)
      && (e.notices != notices ==> e.notices == notices + [RestartMessage(run.current, e.result.value.value)])
  {
  }

  /** The version reported after an update is the one in the metadata of the bytes written. */
  lemma UpdateReportsWrittenVersion(fs: FileSystem, notices: seq<string>, remote: Bytes, run: Run, metadata: Metadata)
    ensures var e := UpdateEffect(fs, notices, remote, run, metadata);
      e.result.Success? && e.result.value.Some? ==>
        && run.harmonyPath in e.files
        && e.files[run.harmonyPath] == Incoming(remote, run, fs).value
        && ParseVersion(metadata(e.files[run.harmonyPath]).value) == Some(e.result.value.value)
        && e.files[BackupPath(run)] == fs[run.harmonyPath]
  {
  }

  /** The host's side of a run: paths, whether Harmony is loaded, and the platform services. */
  datatype Host = Host(
    harmonyPath: string,
    includedPath: string,
    harmonyLoaded: bool,
    metadata: Metadata,
    net: Fetch,
    unzip: Unzip)

  /** What `HarmonyUpdate` ends with. */
  datatype Outcome =
    | VersionUnreadable(error: FileError)    // line 147 or 151 throws out of `HarmonyUpdate`
    | DownloadFaulted(fault: DownloadError)  // `t.Result` throws in the continuation; `doUpdate` never runs
    | Ran(result: Result<Option<Version>, FileError>)  // `doUpdate` ran and ended with `result`

  /** A run's final state: the files, the queued notices, and how it ended. */
  datatype Step = Step(files: FileSystem, notices: seq<string>, outcome: Outcome)

  /** The continuation of lines 185-189: `newHarmony = t.Result; doUpdate();`. */
  function AfterDownload(download: Result<Bytes, DownloadError>, fs: FileSystem, notices: seq<string>, run: Run, metadata: Metadata): (s: Step)
    ensures download.Failure? ==> s == Step(fs, notices, DownloadFaulted(download.error))
  {
    match download
    case Failure(e) => Step(fs, notices, DownloadFaulted(e))
    case Success(bytes) =>
      var e := UpdateEffect(fs, notices, bytes, run, metadata);
      Step(e.files, e.notices, Ran(e.result))
  }

  /** Lines 147-153: the installed and the bundled version, or the exception that stops the run. */
  function ReadRun(fs: FileSystem, host: Host): (r: Result<Run, FileError>)
    ensures r.Success? ==>
      && r.value.harmonyPath == host.harmonyPath && r.value.includedPath == host.includedPath
      && r.value.harmonyLoaded == host.harmonyLoaded
      && ParseFileVersion(fs, host.harmonyPath, host.metadata) == Success(r.value.current)
      && ParseFileVersion(fs, host.includedPath, host.metadata) == Success(r.value.included)
    ensures r.Failure? <==>
      ParseFileVersion(fs, host.harmonyPath, host.metadata).Failure? ||
      ParseFileVersion(fs, host.includedPath, host.metadata).Failure?
  {
    match ParseFileVersion(fs, host.harmonyPath, host.metadata)
    case Failure(e) => Failure(e)
    case Success(current) =>
      match ParseFileVersion(fs, host.includedPath, host.metadata)
      case Failure(e) => Failure(e)
      case Success(included) => Success(Run(host.harmonyPath, host.includedPath, current, included, host.harmonyLoaded))
  }

  /** Lines 147-196, once `UpdateFromGithub` is settled. */
  function Update(fs: FileSystem, notices: seq<string>, fromGithub: bool, host: Host): Step {
    match ReadRun(fs, host)
    case Failure(e) => Step(fs, notices, VersionUnreadable(e))
    case Success(run) =>
      if fromGithub then AfterDownload(TryDownloadHarmonyRelease(run.current, host.net, host.unzip), fs, notices, run, host.metadata)
      else
        var e := UpdateEffect(fs, notices, [], run, host.metadata);
        Step(e.files, e.notices, Ran(e.result))
  }

  /**
   * The download result with a missing release or asset match treated as "no remote
   * update", as a failed request already is; the other faults stay faults.
   */
  function Softened(download: Result<Bytes, DownloadError>): (r: Result<Bytes, DownloadError>)
    ensures r.Failure? ==> r == download && r.error != NoRelease && r.error != NoAsset
    ensures r.Success? ==> r.value == if download.Success? then download.value else []
    ensures download.Failure? && download.error != NoRelease && download.error != NoAsset ==> r == download
  {
    match download
    case Failure(NoRelease) => Success([])
    case Failure(NoAsset) => Success([])
    case _ => download
  }

  /** The corrected continuation: the bundled copy is still considered after a soft failure. */
  function AfterDownloadWithFallback(download: Result<Bytes, DownloadError>, fs: FileSystem, notices: seq<string>, run: Run, metadata: Metadata): (s: Step)
    ensures download.Failure? && download.error != NoRelease && download.error != NoAsset ==>
      s == Step(fs, notices, DownloadFaulted(download.error))
  {
    AfterDownload(Softened(download), fs, notices, run, metadata)
  }

  /** `Update` with the corrected continuation. */
  function UpdateWithFallback(fs: FileSystem, notices: seq<string>, fromGithub: bool, host: Host): Step {
    match ReadRun(fs, host)
    case Failure(e) => Step(fs, notices, VersionUnreadable(e))
    case Success(run) =>
      if fromGithub then AfterDownloadWithFallback(TryDownloadHarmonyRelease(run.current, host.net, host.unzip), fs, notices, run, host.metadata)
      else
        var e := UpdateEffect(fs, notices, [], run, host.metadata);
        Step(e.files, e.notices, Ran(e.result))
  }

  /** An empty release page holds no release link, so the download faults. */
  lemma EmptyReleasePage(current: Version, net: Fetch, unzip: Unzip)
    requires net(ReleasesUri) == Some(Response("", []))
    ensures TryDownloadHarmonyRelease(current, net, unzip) == Failure(NoRelease)
  {
    assert GetLines("") == [];
    DownloadWithoutRelease(current, net, unzip);
  }

  /**
   * As written, a download that faults, e.g. on an empty release page, ends the run
   * without any change, so a newer bundled copy is not installed.
   */
  lemma FaultSkipsBundled(fs: FileSystem, notices: seq<string>, host: Host, run: Run)
    requires ReadRun(fs, host) == Success(run)
    requires TryDownloadHarmonyRelease(run.current, host.net, host.unzip).Failure?
    ensures Update(fs, notices, true, host) ==
      Step(fs, notices, DownloadFaulted(TryDownloadHarmonyRelease(run.current, host.net, host.unzip).error))
  {
  }

  /** Without the network, a newer, non-empty bundled copy is installed. */
  lemma OfflineInstallsBundled(fs: FileSystem, notices: seq<string>, host: Host, run: Run)
    requires ReadRun(fs, host) == Success(run)
    requires Less(run.current, run.included)
    requires run.includedPath in fs && fs[run.includedPath] != []
    requires run.harmonyPath in fs && BackupPath(run) !in fs
    ensures Update(fs, notices, false, host).files == Replaced(fs, run.harmonyPath, BackupPath(run), fs[run.includedPath])
  {
    UpdateBundledWhenNewer(fs, notices, run, host.metadata);
  }

  /**
   * With the corrected continuation, a run whose download yields nothing, through a failed
   * request, no newer release, or no match, ends exactly as a run without the network.
   */
  lemma FallbackAfterSoftFailure(fs: FileSystem, notices: seq<string>, host: Host, run: Run)
    requires ReadRun(fs, host) == Success(run)
    requires var d := TryDownloadHarmonyRelease(run.current, host.net, host.unzip);
      d == Success([]) || d == Failure(NoRelease) || d == Failure(NoAsset)
    ensures UpdateWithFallback(fs, notices, true, host) == UpdateWithFallback(fs, notices, false, host)
    ensures UpdateWithFallback(fs, notices, false, host) == Update(fs, notices, false, host)
  {
  }

  /**
   * The discrepancy on a concrete input: with an empty release page and a newer bundled
   * copy, the written run leaves the files as they were, the corrected one installs the
   * bundled copy.
   */
  lemma EmptyPageSkipsBundled(fs: FileSystem, notices: seq<string>, host: Host, run: Run)
    requires ReadRun(fs, host) == Success(run)
    requires host.net(ReleasesUri) == Some(Response("", []))
    requires Less(run.current, run.included)
    requires run.includedPath in fs && fs[run.includedPath] != []
    requires run.harmonyPath in fs && BackupPath(run) !in fs
    ensures Update(fs, notices, true, host).files == fs
    ensures UpdateWithFallback(fs, notices, true, host).files ==
      Replaced(fs, run.harmonyPath, BackupPath(run), fs[run.includedPath]) != fs
  {
    EmptyReleasePage(run.current, host.net, host.unzip);
    FaultSkipsBundled(fs, notices, host, run);
    FallbackAfterSoftFailure(fs, notices, host, run);
    OfflineInstallsBundled(fs, notices, host, run);
    assert BackupPath(run) in Replaced(fs, run.harmonyPath, BackupPath(run), fs[run.includedPath]);
  }

  /** The corrected continuation agrees with the written one whenever the download does not fault. */
  lemma FallbackAgreesWithoutFault(fs: FileSystem, notices: seq<string>, fromGithub: bool, host: Host, run: Run)
    requires ReadRun(fs, host) == Success(run)
    requires fromGithub ==> TryDownloadHarmonyRelease(run.current, host.net, host.unzip).Success?
    ensures UpdateWithFallback(fs, notices, fromGithub, host) == Update(fs, notices, fromGithub, host)
  {
  }

  /** The updater's mutable state: the files, the `UpdateFromGithub` switch, the queued notices. */
  class HarmonyUpdater {
    var files: FileSystem
    var updateFromGithub: bool
    var notices: seq<string>

    /** Load time: `UpdateFromGithub` starts out true and no notice is queued. */
    constructor(files: FileSystem)
      ensures this.files == files && updateFromGithub && notices == []
    {
      this.files := files;
      updateFromGithub := true;
      notices := [];
    }

    /** `doUpdate`: install the incoming bytes and queue the restart notice. */
    method DoUpdate(remote: Bytes, run: Run, metadata: Metadata) returns (result: Result<Option<Version>, FileError>)
      modifies this
      ensures Effect(files, notices, result) == UpdateEffect(old(files), old(notices), remote, run, metadata)
      ensures updateFromGithub == old(updateFromGithub)
    {
      var newHarmony := remote;
      if newHarmony == [] && Less(run.current, run.included) {
        if run.includedPath !in files {
          return Failure(FileNotFound(run.includedPath));
        }
        newHarmony := files[run.includedPath];
      }
      if newHarmony == [] {
        return Success(None);
      }
      var backup := BackupPath(run);
      if run.harmonyPath !in files {
        return Failure(FileNotFound(run.harmonyPath));
      }
      if backup in files {
        return Failure(DestinationExists(backup));
      }
      files := (files - {run.harmonyPath})[backup := files[run.harmonyPath]];
      files := files[run.harmonyPath := newHarmony];
      var newVersion := ParseFileVersion(files, run.harmonyPath, metadata);
      if newVersion.Failure? {
        return Failure(newVersion.error);
      }
      if run.harmonyLoaded {
        notices := notices + [RestartMessage(run.current, newVersion.value)];
      }
      return Success(Some(newVersion.value));
    }

    /**
     * `HarmonyUpdate`: the sentinel file switches the remote path off for good; then the
     * download runs and its continuation calls `doUpdate`, or `doUpdate` runs directly.
     */
    method HarmonyUpdate(host: Host, webUpdateDisabled: bool) returns (outcome: Outcome)
      modifies this
      ensures updateFromGithub == (old(updateFromGithub) && !webUpdateDisabled)
      ensures Step(files, notices, outcome) == Update(old(files), old(notices), updateFromGithub, host)
    {
      if webUpdateDisabled {
        updateFromGithub := false;
      }
      var read := ReadRun(files, host);
      if read.Failure? {
        return VersionUnreadable(read.error);
      }
      var run := read.value;
      if updateFromGithub {
        var download := TryDownloadHarmonyRelease(run.current, host.net, host.unzip);
        if download.Failure? {
          return DownloadFaulted(download.error);
        }
        var result := DoUpdate(download.value, run, host.metadata);
        return Ran(result);
      } else {
        var result := DoUpdate([], run, host.metadata);
        return Ran(result);
      }
    }

    /** `HarmonyUpdate` with the continuation that still considers the bundled copy. */
    method HarmonyUpdateWithFallback(host: Host, webUpdateDisabled: bool) returns (outcome: Outcome)
      modifies this
      ensures updateFromGithub == (old(updateFromGithub) && !webUpdateDisabled)
      ensures Step(files, notices, outcome) == UpdateWithFallback(old(files), old(notices), updateFromGithub, host)
    {
      if webUpdateDisabled {
        updateFromGithub := false;
      }
      var read := ReadRun(files, host);
      if read.Failure? {
        return VersionUnreadable(read.error);
      }
      var run := read.value;
      var remote: Bytes := [];
      if updateFromGithub {
        var download := Softened(TryDownloadHarmonyRelease(run.current, host.net, host.unzip));
        if download.Failure? {
          return DownloadFaulted(download.error);
        }
        remote := download.value;
      }
      var result := DoUpdate(remote, run, host.metadata);
      return Ran(result);
    }
  }
}
