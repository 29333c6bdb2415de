/**
 * `TryDownloadHarmonyRelease`: find the newest release on the release page, and when it
 * is newer than the installed copy, pick its zip asset and take `0Harmony.dll` out of it.
 * The network and the zip reader are parameters; an `Option` result of either stands for
 * a request that did not succeed or an archive that cannot be opened.
 */
module Discovery {
  import opened Wrappers
  import opened Strings
  import opened Versions
  import opened Artifact
  import opened Lines
  import opened Patterns

  /** The site every path on the release pages is relative to. */
  const UriBase: string := "https://github.com"

  /** The page listing the releases. */
  const ReleasesUri: string := "https://github.com/pardeike/Harmony/releases"

  /** The archive entry that holds the library. */
  const EntryName: string := "net48/0Harmony.dll"

  /** What a successful request delivers: the body as text and as bytes. */
  datatype Response = Response(text: string, data: Bytes)

  /** A web request to a URI: `None` when its result is not `Success`. */
  type Fetch = string -> Option<Response>

  /** An entry of a zip archive: its full name and its uncompressed contents. */
  datatype ZipEntry = ZipEntry(fullName: string, contents: Bytes)

  /** The zip reader: the entries of an archive, or `None` when the bytes are not one. */
  type Unzip = Bytes -> Option<seq<ZipEntry>>

  /** The exceptions that fault the download's `Task`. */
  datatype DownloadError =
    | NoRelease               // `.First()` on an empty sequence of release matches
    | VersionOverflow         // `Version.Parse` of a release version with a component above `Int32.MaxValue`
    | NoAsset                 // `.First()` on an empty sequence of asset matches
    | BadArchive              // the downloaded bytes are not a zip archive
    | NoEntry                 // `.First()` finds no entry named `net48/0Harmony.dll`

  /** The release links found on a page, in the order of its lines. */
  function ReleaseTags(lines: seq<string>): (r: seq<ReleaseTag>)
    ensures forall k :: 0 <= k < |r| ==> r[k].path == ReleasePrefix + r[k].version && IsDottedQuad(r[k].version)
  {
    var r := FilterMap(lines, MatchRelease);
    assert forall k :: 0 <= k < |r| ==> exists i :: 0 <= i < |lines| && MatchRelease(lines[i]) == Some(r[k]);
    r
  }

  /** `Version.Parse` of every tag's version, or `None` when one of them throws. */
  function ParseAll(tags: seq<ReleaseTag>): (r: Option<seq<Version>>)
    ensures r.Some? ==> |r.value| == |tags| && forall k :: 0 <= k < |tags| ==> ParseVersion(tags[k].version) == Some(r.value[k])
    ensures r.None? <==> exists k :: 0 <= k < |tags| && ParseVersion(tags[k].version).None?
  {
    if tags == [] then Some([])
    else match (ParseVersion(tags[0].version), ParseAll(tags[1..]))
      case (Some(v), Some(vs)) => Some([v] + vs)
      case _ =>
        assert forall k :: 1 <= k < |tags| ==> tags[k] == tags[1..][k - 1];
        None
  }

  /**
   * `OrderByDescending(v).First()` on a non-empty sequence: the index of the first
   * greatest element, since the sort is stable and ties keep their order.
   */
  function NewestIndex(vs: seq<Version>): (k: nat)
    requires |vs| >= 1
    ensures k < |vs|
    ensures forall j :: 0 <= j < |vs| ==> LessEq(vs[j], vs[k])
    ensures forall j :: 0 <= j < k ==> Less(vs[j], vs[k])
  {
    if |vs| == 1 then 0
    else
      var k := NewestIndex(vs[..|vs| - 1]);
      var last := |vs| - 1;
      assert forall j :: 0 <= j < last ==> vs[j] == vs[..last][j];
      if Less(vs[k], vs[last]) then
        assert forall j :: 0 <= j < last ==> LessEq(vs[j], vs[k]) ==> Less(vs[j], vs[last]);
        last
      else
        assert LessEq(vs[last], vs[k]);
        k
  }

  /** Only one index is the first greatest: the choice of `NewestIndex` is forced. */
  lemma NewestIndexUnique(vs: seq<Version>, k: nat)
    requires k < |vs|
    requires forall j :: 0 <= j < |vs| ==> LessEq(vs[j], vs[k])
    requires forall j :: 0 <= j < k ==> Less(vs[j], vs[k])
    ensures NewestIndex(vs) == k
  {
    var n := NewestIndex(vs);
    if n < k {
      assert Less(vs[n], vs[k]) && LessEq(vs[k], vs[n]);
      LessIsStrictTotalOrder(vs[n], vs[k], vs[n]);
    } else if k < n {
      assert Less(vs[k], vs[n]) && LessEq(vs[n], vs[k]);
      LessIsStrictTotalOrder(vs[k], vs[n], vs[k]);
    }
  }

  /** The release chosen for download: its link and its parsed version. */
  datatype Selected = Selected(tag: ReleaseTag, version: Version)

  /**
   * The release selection of lines 66-73: the first release whose version is at least
   * every other one. No release at all and a version that overflows are faults.
   */
  function NewestRelease(tags: seq<ReleaseTag>): (r: Result<Selected, DownloadError>)
    ensures r == Failure(NoRelease) <==> tags == []
    ensures r == Failure(VersionOverflow) <==>
      tags != [] && exists k :: 0 <= k < |tags| && ParseVersion(tags[k].version).None?
    ensures r.Success? ==> exists k :: 0 <= k < |tags| && IsNewest(tags, k) && r.value == Selected(tags[k], ParseVersion(tags[k].version).value)
  {
    if tags == [] then Failure(NoRelease)
    else match ParseAll(tags)
      case None => Failure(VersionOverflow)
      case Some(vs) =>
        var k := NewestIndex(vs);
        assert IsNewest(tags, k);
        Success(Selected(tags[k], vs[k]))
  }

  /** `tags[k]` parses, is at least every other tag and is strictly greater than every earlier one. */
  ghost predicate IsNewest(tags: seq<ReleaseTag>, k: nat)
    requires k < |tags|
  {
    && (forall j :: 0 <= j < |tags| ==> ParseVersion(tags[j].version).Some?)
    && (forall j :: 0 <= j < |tags| ==> LessEq(ParseVersion(tags[j].version).value, ParseVersion(tags[k].version).value))
    && (forall j :: 0 <= j < k ==> Less(ParseVersion(tags[j].version).value, ParseVersion(tags[k].version).value))
  }

  /**
   * Conversely, a release that is at least every other one and strictly greater than
   * every earlier one is the one selected: ties go to the earliest line.
   */
  lemma NewestReleaseAt(tags: seq<ReleaseTag>, k: nat)
    requires k < |tags| && IsNewest(tags, k)
    ensures NewestRelease(tags) == Success(Selected(tags[k], ParseVersion(tags[k].version).value))
  {
    var vs := ParseAll(tags).value;
    NewestIndexUnique(vs, k);
  }

  /**
   * `$"{uriBase}{releasePath.Replace("tag", "expanded_assets")}"`: the page listing the
   * assets of a release.
   */
  function ExpandedAssetsUri(path: string): string {
    UriBase + Replace(path, "tag", "expanded_assets")
  }

  /** For a release link the substitution touches exactly the `tag` path segment. */
  lemma ExpandedAssetsOfRelease(version: string)
    requires IsDottedQuad(version)
    ensures ExpandedAssetsUri(ReleasePrefix + version) ==
      UriBase + "/pardeike/Harmony/releases/" + "expanded_assets" + ("/v" + version)
  {
    var repo := "/pardeike/Harmony/releases/";
    var rest := "/v" + version;
    calc {
      ExpandedAssetsUri(ReleasePrefix + version);
      UriBase + Replace(ReleasePrefix + version, "tag", "expanded_assets");
      { ReleasePrefixSegments(); assert (repo + "tag" + "/v") + version == repo + "tag" + rest; }
      UriBase + Replace(repo + "tag" + rest, "tag", "expanded_assets");
      { TagFreeVersion(version); ReplaceOnce(repo, "tag", rest, "expanded_assets"); }
      UriBase + (repo + "expanded_assets" + rest);
    }
  }

  /** The release link prefix is the releases path, the `tag` segment, then `/v`. */
  lemma ReleasePrefixSegments()
    ensures ReleasePrefix == "/pardeike/Harmony/releases/" + "tag" + "/v"
  {
  }

  /** Version text holds digits and dots only, so no 't'. */
  lemma TagFreeVersion(version: string)
    requires IsDottedQuad(version)
    ensures 't' !in version
  {
    var parts := Split(version, '.');
    JoinSplit(version, '.');
    JoinDigits(parts);
  }

  /** Digit runs joined by dots hold no 't'. */
  lemma {:induction false} JoinDigits(parts: seq<string>)
    requires |parts| >= 1 && forall k :: 0 <= k < |parts| ==> IsNumber(parts[k])
    ensures 't' !in Join(parts, '.')
  {
    assert 't' !in parts[0] by {
      assert forall i :: 0 <= i < |parts[0]| ==> IsDigit(parts[0][i]);
    }
    if |parts| > 1 {
      JoinDigits(parts[1..]);
    }
  }

  /** The asset links of release `version` on its assets page, in line order. */
  function AssetPaths(lines: seq<string>, version: string): (r: seq<string>)
    ensures forall k :: 0 <= k < |r| ==> IsAssetText(r[k], version)
  {
    var matcher := (l: string) => MatchAsset(l, version);
    var r := FilterMap(lines, matcher);
    assert forall k :: 0 <= k < |r| ==> exists i :: 0 <= i < |lines| && MatchAsset(lines[i], version) == Some(r[k]) by {
      forall k | 0 <= k < |r|
        ensures exists i :: 0 <= i < |lines| && MatchAsset(lines[i], version) == Some(r[k])
      {
        var i :| 0 <= i < |lines| && matcher(lines[i]) == Some(r[k]);
      }
    }
    r
  }

  /** The index of the first path that contains "Fat", if any. */
  function FirstFat(zips: seq<string>): (r: Option<nat>)
    ensures r.Some? ==> r.value < |zips| && Contains(zips[r.value], "Fat")
    ensures r.Some? ==> forall j :: 0 <= j < r.value ==> !Contains(zips[j], "Fat")
    ensures r.None? <==> forall j :: 0 <= j < |zips| ==> !Contains(zips[j], "Fat")
  {
    if zips == [] then None
    else if Contains(zips[0], "Fat") then Some(0)
    else match FirstFat(zips[1..])
      case None =>
        assert forall j :: 1 <= j < |zips| ==> zips[j] == zips[1..][j - 1];
        None
      case Some(k) =>
        assert forall j :: 1 <= j <= k + 1 ==> zips[j] == zips[1..][j - 1];
        Some(k + 1)
  }

  /**
   * `zips.FirstOrDefault(p => p.Contains("Fat")) ?? zips.First()`: the first path naming
   * the "Fat" build, else the first path; an empty list is a fault.
   */
  function ChooseAsset(zips: seq<string>): (r: Result<string, DownloadError>)
    ensures r.Failure? <==> zips == []
    ensures r.Failure? ==> r.error == NoAsset
    ensures r.Success? ==> r.value in zips
    ensures r.Success? && (exists j :: 0 <= j < |zips| && Contains(zips[j], "Fat")) ==> Contains(r.value, "Fat")
    ensures r.Success? && (forall j :: 0 <= j < |zips| ==> !Contains(zips[j], "Fat")) ==> r.value == zips[0]
  {
    match FirstFat(zips)
    case Some(k) => Success(zips[k])
    case None => if zips == [] then Failure(NoAsset) else Success(zips[0])
  }

  /** The first "Fat" path is chosen wherever it stands in the list. */
  lemma ChooseAssetFat(before: seq<string>, fat: string, after: seq<string>)
    requires forall j :: 0 <= j < |before| ==> !Contains(before[j], "Fat")
    requires Contains(fat, "Fat")
    ensures ChooseAsset(before + [fat] + after) == Success(fat)
  {
    var zips := before + [fat] + after;
    assert zips[|before|] == fat;
    assert forall j :: 0 <= j < |before| ==> zips[j] == before[j];
    var k := FirstFat(zips).value;
    assert k == |before|;
  }

  /** The first entry named `net48/0Harmony.dll`, or the fault the archive raises. */
  function ExtractEntry(archive: Option<seq<ZipEntry>>): (r: Result<Bytes, DownloadError>)
    ensures archive.None? <==> r == Failure(BadArchive)
    ensures archive.Some? ==>
      (r == Failure(NoEntry) <==> forall k :: 0 <= k < |archive.value| ==> archive.value[k].fullName != EntryName)
    ensures r.Success? ==>
      exists k :: 0 <= k < |archive.value| && archive.value[k].fullName == EntryName &&
        r.value == archive.value[k].contents && (forall j :: 0 <= j < k ==> archive.value[j].fullName != EntryName)
  {
    match archive
    case None => Failure(BadArchive)
    case Some(entries) => FirstEntry(entries)
  }

  /** The contents of the first entry named `net48/0Harmony.dll`. */
  function FirstEntry(entries: seq<ZipEntry>): (r: Result<Bytes, DownloadError>)
    ensures r.Failure? ==> r.error == NoEntry
    ensures r.Failure? <==> forall k :: 0 <= k < |entries| ==> entries[k].fullName != EntryName
    ensures r.Success? ==>
      exists k :: 0 <= k < |entries| && entries[k].fullName == EntryName &&
        r.value == entries[k].contents && (forall j :: 0 <= j < k ==> entries[j].fullName != EntryName)
  {
    if entries == [] then Failure(NoEntry)
    else if entries[0].fullName == EntryName then Success(entries[0].contents)
    else
      var r := FirstEntry(entries[1..]);
      assert forall k :: 1 <= k < |entries| ==> entries[k] == entries[1..][k - 1];
      r
  }

  /** Lines 102-121: fetch the archive at `zipPath` and take the library out of it. */
  function DownloadZip(zipPath: string, net: Fetch, unzip: Unzip): (r: Result<Bytes, DownloadError>)
    ensures net(UriBase + zipPath).None? ==> r == Success([])
    ensures r.Failure? ==> r.error == BadArchive || r.error == NoEntry
    ensures r.Success? && r.value != [] ==>
      net(UriBase + zipPath).Some? && unzip(net(UriBase + zipPath).value.data).Some?
    ensures net(UriBase + zipPath).Some? ==> r == ExtractEntry(unzip(net(UriBase + zipPath).value.data))
  {
    match net(UriBase + zipPath)
    case None => Success([])
    case Some(zip) => ExtractEntry(unzip(zip.data))
  }

  /** Lines 100-121: choose among the asset paths found and download the chosen one. */
  function DownloadChosen(zips: seq<string>, net: Fetch, unzip: Unzip): (r: Result<Bytes, DownloadError>)
    ensures r == Failure(NoAsset) <==> zips == []
    ensures zips != [] ==> r == DownloadZip(ChooseAsset(zips).value, net, unzip)
  {
    match ChooseAsset(zips)
    case Failure(e) => Failure(e)
    case Success(zipPath) => DownloadZip(zipPath, net, unzip)
  }

  /**
   * Lines 80-121, once a newer release is chosen: fetch its asset list, then choose and
   * download an asset of it.
   */
  function DownloadAsset(release: Selected, net: Fetch, unzip: Unzip): (r: Result<Bytes, DownloadError>)
    ensures net(ExpandedAssetsUri(release.tag.path)).None? ==> r == Success([])
    ensures net(ExpandedAssetsUri(release.tag.path)).Some? ==>
      r == DownloadChosen(AssetPaths(GetLines(net(ExpandedAssetsUri(release.tag.path)).value.text), release.tag.version), net, unzip)
  {
    match net(ExpandedAssetsUri(release.tag.path))
    case None => Success([])
    case Some(assets) => DownloadChosen(AssetPaths(GetLines(assets.text), release.tag.version), net, unzip)
  }

  /** Lines 77-121: the "newer than installed" gate in front of the asset download. */
  function DownloadIfNewer(release: Selected, current: Version, net: Fetch, unzip: Unzip): (r: Result<Bytes, DownloadError>)
    ensures LessEq(release.version, current) ==> r == Success([])
    ensures Less(current, release.version) ==> r == DownloadAsset(release, net, unzip)
    ensures r.Success? && r.value != [] ==> Less(current, release.version)
  {
    if LessEq(release.version, current) then Success([])
    else
      LessEqFacts(release.version, current, current);
      DownloadAsset(release, net, unzip)
  }

  /**
   * `TryDownloadHarmonyRelease(currentVersion)`: the bytes of the newer library, or the
   * empty array when a request fails or the newest release is not newer; a `Failure` is
   * an exception that faults the returned `Task`.
   */
  function TryDownloadHarmonyRelease(current: Version, net: Fetch, unzip: Unzip): (r: Result<Bytes, DownloadError>)
    ensures net(ReleasesUri).None? ==> r == Success([])
    ensures net(ReleasesUri).Some? ==>
      var selection := NewestRelease(ReleaseTags(GetLines(net(ReleasesUri).value.text)));
      && (selection.Failure? ==> r == Failure(selection.error))
      && (selection.Success? ==> r == DownloadIfNewer(selection.value, current, net, unzip))
  {
    match net(ReleasesUri)
    case None => Success([])
    case Some(page) =>
      match NewestRelease(ReleaseTags(GetLines(page.text)))
      case Failure(e) => Failure(e)
      case Success(release) => DownloadIfNewer(release, current, net, unzip)
  }

  /**
   * Bytes come back only when the release page was fetched and its newest release is
   * strictly newer than `current`; a failed request at any stage yields the empty array.
   */
  lemma DownloadOnlyNewer(current: Version, net: Fetch, unzip: Unzip)
    ensures var r := TryDownloadHarmonyRelease(current, net, unzip);
      r.Success? && r.value != [] ==>
        && net(ReleasesUri).Some?
        && var selection := NewestRelease(ReleaseTags(GetLines(net(ReleasesUri).value.text)));
        && selection.Success?
        && Less(current, selection.value.version)
  {
  }

  /**
   * When every request succeeds, the newest release is newer and an asset is chosen, the
   * result is the first `net48/0Harmony.dll` entry of that asset's archive.
   */
  lemma DownloadDeliversEntry(current: Version, net: Fetch, unzip: Unzip, release: Selected, zipPath: string, entries: seq<ZipEntry>)
    requires net(ReleasesUri).Some?
    requires NewestRelease(ReleaseTags(GetLines(net(ReleasesUri).value.text))) == Success(release)
    requires Less(current, release.version)
    requires net(ExpandedAssetsUri(release.tag.path)).Some?
    requires ChooseAsset(AssetPaths(GetLines(net(ExpandedAssetsUri(release.tag.path)).value.text), release.tag.version)) == Success(zipPath)
    requires net(UriBase + zipPath).Some?
    requires unzip(net(UriBase + zipPath).value.data) == Some(entries)
    ensures TryDownloadHarmonyRelease(current, net, unzip) == FirstEntry(entries)
  {
  }

  /** A release page without any release link faults the download instead of reporting "no update". */
  lemma DownloadWithoutRelease(current: Version, net: Fetch, unzip: Unzip)
    requires net(ReleasesUri).Some?
    requires forall i :: 0 <= i < |GetLines(net(ReleasesUri).value.text)| ==>
      MatchRelease(GetLines(net(ReleasesUri).value.text)[i]).None?
    ensures TryDownloadHarmonyRelease(current, net, unzip) == Failure(NoRelease)
  {
  }
}
