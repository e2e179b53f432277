/** What both updaters (cmd/starter.go and cmd/client/updater.go) decide from
    the decoded list of GitHub releases, before any download: the first
    release tagged "commercial", its first asset named `GOOS.<version>.zip`,
    the version encoded in that name, and whether it is newer than the
    installed one. The two files carry identical copies of this logic. */
module Releases {
  import opened Results
  import opened Text
  import opened Versions

  /** One downloadable file of a release: its name and download URL. */
  datatype Asset = Asset(name: string, url: string)

  /** A release as decoded from the GitHub API: its tag and its assets. */
  datatype Release = Release(tagName: string, assets: seq<Asset>)

  /** Why an update check fails before downloading. */
  datatype UpdateError =
    | CommercialNotFound
    | AssetNotFound
    | InvalidAssetName

  predicate IsCommercial(r: Release) {
    r.tagName == "commercial"
  }

  /** The asset is the zip archive for operating system `goos`. */
  predicate IsPlatformArchive(a: Asset, goos: string) {
    HasPrefix(a.name, goos + ".") && HasSuffix(a.name, ".zip")
  }

  /** Index of the first release tagged "commercial". */
  function FirstCommercial(releases: seq<Release>): (r: Option<nat>)
    ensures r.None? <==> forall i :: 0 <= i < |releases| ==> !IsCommercial(releases[i])
    ensures r.Some? ==>
      && r.value < |releases| && IsCommercial(releases[r.value])
      && forall j :: 0 <= j < r.value ==> !IsCommercial(releases[j])
  {
    if |releases| == 0 then None
    else if IsCommercial(releases[0]) then Some(0)
    else match FirstCommercial(releases[1..])
      case None => None
      case Some(i) => Some(i + 1)
  }

  /** Index of the first archive for `goos` among `assets`. */
  function FirstPlatformArchive(assets: seq<Asset>, goos: string): (r: Option<nat>)
    ensures r.None? <==> forall i :: 0 <= i < |assets| ==> !IsPlatformArchive(assets[i], goos)
    ensures r.Some? ==>
      && r.value < |assets| && IsPlatformArchive(assets[r.value], goos)
      && forall j :: 0 <= j < r.value ==> !IsPlatformArchive(assets[j], goos)
  {
    if |assets| == 0 then None
    else if IsPlatformArchive(assets[0], goos) then Some(0)
    else match FirstPlatformArchive(assets[1..], goos)
      case None => None
      case Some(i) => Some(i + 1)
  }

  /** The (assetName, downloadURL) pair the asset search leaves behind: the
      first matching asset's name and URL, or two empty strings. */
  function ChosenAsset(assets: seq<Asset>, goos: string): (string, string) {
    match FirstPlatformArchive(assets, goos)
    case None => ("", "")
    case Some(k) => (assets[k].name, assets[k].url)
  }

  /** The release search: the loop that stops at the first release tagged
      "commercial". */
  method FindCommercial(releases: seq<Release>) returns (commercial: Option<nat>)
    ensures commercial == FirstCommercial(releases)
  {
    commercial := None;
    var i := 0;
    while i < |releases|
      invariant 0 <= i <= |releases|
      invariant forall j :: 0 <= j < i ==> !IsCommercial(releases[j])
    {
      if releases[i].tagName == "commercial" {
        commercial := Some(i);
        FirstCommercialAt(releases, i);
        return;
      }
      i := i + 1;
    }
  }

  lemma FirstCommercialAt(releases: seq<Release>, i: nat)
    requires i < |releases| && IsCommercial(releases[i])
    requires forall j :: 0 <= j < i ==> !IsCommercial(releases[j])
    ensures FirstCommercial(releases) == Some(i)
  {
    var r := FirstCommercial(releases);
    assert r.Some? by { assert !(forall j :: 0 <= j < |releases| ==> !IsCommercial(releases[j])); }
  }

  /** The asset search: the loop that records the name and URL of the first
      archive for `goos` and stops. */
  method FindAsset(assets: seq<Asset>, goos: string) returns (assetName: string, downloadURL: string)
    ensures (assetName, downloadURL) == ChosenAsset(assets, goos)
  {
    assetName, downloadURL := "", "";
    var i := 0;
    while i < |assets|
      invariant 0 <= i <= |assets|
      invariant forall j :: 0 <= j < i ==> !IsPlatformArchive(assets[j], goos)
    {
      var a := assets[i];
      if HasPrefix(a.name, goos + ".") && HasSuffix(a.name, ".zip") {
        assetName, downloadURL := a.name, a.url;
        FirstPlatformArchiveAt(assets, goos, i);
        return;
      }
      i := i + 1;
    }
  }

  lemma FirstPlatformArchiveAt(assets: seq<Asset>, goos: string, i: nat)
    requires i < |assets| && IsPlatformArchive(assets[i], goos)
    requires forall j :: 0 <= j < i ==> !IsPlatformArchive(assets[j], goos)
    ensures FirstPlatformArchive(assets, goos) == Some(i)
  {
    var r := FirstPlatformArchive(assets, goos);
    assert r.Some? by { assert !(forall j :: 0 <= j < |assets| ==> !IsPlatformArchive(assets[j], goos)); }
  }

  /** extractVersion / extractGitVersion: drop one trailing ".zip", and
      return what follows the first '.', or fail when there is no '.'. */
  function ExtractVersion(assetName: string): (r: Result<string, UpdateError>)
    ensures r.Err? <==> '.' !in TrimSuffix(assetName, ".zip")
    ensures r.Err? ==> r.error == InvalidAssetName
    ensures r.Ok? ==> var base := TrimSuffix(assetName, ".zip");
      exists i: nat :: SplitsAtDot(base, i) && r.value == base[i + 1..]
  {
    var base := TrimSuffix(assetName, ".zip");
    var parts := Split(base, '.');
    if |parts| < 2 then Err(InvalidAssetName)
    else
      ExtractVersionOk(base);
      Ok(Join(parts[1..], '.'))
  }

  /** Position `i` holds the first '.' of `s`. */
  predicate SplitsAtDot(s: string, i: nat) {
    i < |s| && s[i] == '.' && '.' !in s[..i]
  }

  /** The pieces after the first one join back into the text after the
      first separator. */
  lemma ExtractVersionOk(base: string)
    ensures |Split(base, '.')| >= 2 <==> '.' in base
    ensures '.' in base ==>
      && SplitsAtDot(base, IndexOf(base, '.').value)
      && Join(Split(base, '.')[1..], '.') == base[IndexOf(base, '.').value + 1..]
  {
    match IndexOf(base, '.')
    case None =>
    case Some(i) =>
      var rest := base[i + 1..];
      assert Split(base, '.') == [base[..i]] + Split(rest, '.');
      assert Split(base, '.')[1..] == Split(rest, '.');
      JoinSplit(rest, '.');
  }

  /** The archive name both updaters build for the downloaded file. */
  function ArchiveName(goos: string, version: string): (name: string)
    ensures |name| == |goos| + |version| + 5
    ensures forall url :: IsPlatformArchive(Asset(name, url), goos)
  {
    var name := goos + "." + version + ".zip";
    assert name[..|goos| + 1] == goos + ".";
    assert name[|name| - 4..] == ".zip";
    name
  }

  /** Reading the version back from an archive name gives the version it was
      built with, provided the platform name has no '.'. */
  lemma ExtractVersionRoundTrip(goos: string, version: string)
    requires '.' !in goos
    ensures ExtractVersion(ArchiveName(goos, version)) == Ok(version)
  {
    var base := goos + "." + version;
    var name := ArchiveName(goos, version);
    assert HasSuffix(name, ".zip") by { assert name[|name| - 4..] == ".zip"; }
    assert TrimSuffix(name, ".zip") == base;
    JoinPieces(goos, '.', version);
    FirstOccurrence(base, '.', |goos|);
    ExtractVersionOk(base);
  }

  /** For a platform name without '.', the version read from any archive the
      asset search accepts rebuilds exactly that archive's name. */
  lemma ArchiveNameMatchesAsset(a: Asset, goos: string, version: string)
    requires '.' !in goos && IsPlatformArchive(a, goos)
    requires ExtractVersion(a.name) == Ok(version)
    ensures ArchiveName(goos, version) == a.name
  {
    var base := TrimSuffix(a.name, ".zip");
    var i: nat :| SplitsAtDot(base, i) && version == base[i + 1..];
    PlatformDot(base, goos, i);
    assert base == goos + "." + version;
  }

  /** In the base of a platform archive's name the first '.' is the one
      right after the platform name. */
  lemma PlatformDot(base: string, goos: string, i: nat)
    requires '.' !in goos && HasPrefix(base + ".zip", goos + ".")
    requires SplitsAtDot(base, i)
    ensures i == |goos| && base[..i] == goos
  {
    var name := base + ".zip";
    var g := |goos|;
    assert name[..g + 1] == goos + ".";
    assert name[i] == '.';
    forall k | 0 <= k < g ensures name[k] != '.' {
      assert name[k] == goos[k];
    }
    assert name[g] == '.';
    assert base[..g] == name[..g];
    assert '.' !in base[..g];
    SplitsAtDotUnique(base, g, i);
  }

  /** A string has a single first '.'. */
  lemma SplitsAtDotUnique(s: string, i: nat, j: nat)
    requires SplitsAtDot(s, i) && SplitsAtDot(s, j)
    ensures i == j
  {
    FirstOccurrence(s, '.', i);
    FirstOccurrence(s, '.', j);
  }

  /** The shortest name the asset search accepts, "GOOS.zip" (prefix and
      suffix overlapping on the '.'), carries no version and is rejected. */
  lemma OverlappingArchiveNameRejected(goos: string, url: string)
    requires '.' !in goos
    ensures IsPlatformArchive(Asset(goos + ".zip", url), goos)
    ensures ExtractVersion(goos + ".zip") == Err(InvalidAssetName)
  {
    var name := goos + ".zip";
    assert name[..|goos| + 1] == goos + ".";
    assert name[|name| - 4..] == ".zip";
    assert TrimSuffix(name, ".zip") == goos;
  }

  /** The outcome of the shared part of CheckAndUpdate. */
  datatype Plan =
    | Failed(error: UpdateError)
    | UpToDate
    | Fetch(assetName: string, downloadURL: string, remoteVersion: string)

  /** The decisions both updaters take on the decoded releases: no
      commercial release, no asset (judged, as in the source, by an empty
      download URL), an unreadable asset name, or a remote version that is
      not strictly newer than `current`; otherwise the asset to fetch. */
  function PlanFor(releases: seq<Release>, goos: string, current: string): Plan {
    match FirstCommercial(releases)
    case None => Failed(CommercialNotFound)
    case Some(c) =>
      var (assetName, downloadURL) := ChosenAsset(releases[c].assets, goos);
      if downloadURL == "" then Failed(AssetNotFound)
      else match ExtractVersion(assetName)
        case Err(e) => Failed(e)
        case Ok(remote) =>
          if Compare(remote, current) <= 0 then UpToDate
          else Fetch(assetName, downloadURL, remote)
  }

  /** How a CheckAndUpdate call ends: an error, "already the latest", the
      user declining the prompt (the starter only), or the download of
      `downloadURL` into a temporary file named `archiveName` followed by
      unpacking it over the installation. */
  datatype Outcome =
    | Error(error: UpdateError)
    | Latest
    | Declined
    | Download(downloadURL: string, archiveName: string)

  /** The shared part of CheckAndUpdate, as the source runs it: the release
      loop, the asset loop, the version extraction and the version gate. */
  method PlanUpdate(releases: seq<Release>, goos: string, current: string) returns (plan: Plan)
    ensures plan == PlanFor(releases, goos, current)
  {
    var commercial := FindCommercial(releases);
    if commercial.None? {
      return Failed(CommercialNotFound);
    }
    var assetName, downloadURL := FindAsset(releases[commercial.value].assets, goos);
    if downloadURL == "" {
      return Failed(AssetNotFound);
    }
    var remote := ExtractVersion(assetName);
    if remote.Err? {
      return Failed(remote.error);
    }
    var cmp := CompareVersions(remote.value, current);
    if cmp <= 0 {
      return UpToDate;
    }
    return Fetch(assetName, downloadURL, remote.value);
  }

  /** The release search fails exactly when no release is tagged
      "commercial". */
  lemma PlanCommercialNotFound(releases: seq<Release>, goos: string, current: string)
    ensures PlanFor(releases, goos, current) == Failed(CommercialNotFound) <==>
      forall i :: 0 <= i < |releases| ==> !IsCommercial(releases[i])
  {
  }

  /** The asset search fails when the first commercial release has no
      archive for `goos`, or its first one has an empty URL. */
  lemma PlanAssetNotFound(releases: seq<Release>, goos: string, current: string)
    ensures PlanFor(releases, goos, current) == Failed(AssetNotFound) <==>
      && FirstCommercial(releases).Some?
      && var assets := releases[FirstCommercial(releases).value].assets;
      || FirstPlatformArchive(assets, goos).None?
      || assets[FirstPlatformArchive(assets, goos).value].url == ""
  {
  }

  /** The version cannot be read when the chosen archive has a URL but no
      '.' in its name once ".zip" is removed. */
  lemma PlanInvalidAssetName(releases: seq<Release>, goos: string, current: string)
    ensures PlanFor(releases, goos, current) == Failed(InvalidAssetName) <==>
      && FirstCommercial(releases).Some?
      && var assets := releases[FirstCommercial(releases).value].assets;
      && FirstPlatformArchive(assets, goos).Some?
      && var a := assets[FirstPlatformArchive(assets, goos).value];
      && a.url != ""
      && '.' !in TrimSuffix(a.name, ".zip")
  {
  }

  /** A fetch is planned only for the first commercial release's first
      archive for `goos`, with a non-empty URL, and a strictly newer version
      read from its name. */
  lemma PlanFetchIsFirstNewerArchive(releases: seq<Release>, goos: string, current: string)
    requires PlanFor(releases, goos, current).Fetch?
    ensures var p := PlanFor(releases, goos, current);
      && FirstCommercial(releases).Some?
      && var assets := releases[FirstCommercial(releases).value].assets;
      && FirstPlatformArchive(assets, goos).Some?
      && var a := assets[FirstPlatformArchive(assets, goos).value];
      && a.name == p.assetName && a.url == p.downloadURL && a.url != ""
      && ExtractVersion(a.name) == Ok(p.remoteVersion)
      && Compare(p.remoteVersion, current) == 1
  {
  }

  /** When the remote version is not newer, nothing is fetched. */
  lemma NotNewerMeansNoFetch(releases: seq<Release>, goos: string, current: string, remote: string)
    requires FirstCommercial(releases).Some?
    requires var (n, u) := ChosenAsset(releases[FirstCommercial(releases).value].assets, goos);
      u != "" && ExtractVersion(n) == Ok(remote)
    ensures Compare(remote, current) <= 0 <==> PlanFor(releases, goos, current) == UpToDate
    ensures Compare(remote, current) > 0 <==> PlanFor(releases, goos, current).Fetch?
  {
  }

  /** Once the fetched version is installed, the same releases plan no
      further update. */
  lemma UpdateReachesFixpoint(releases: seq<Release>, goos: string, current: string)
    requires PlanFor(releases, goos, current).Fetch?
    ensures PlanFor(releases, goos, PlanFor(releases, goos, current).remoteVersion) == UpToDate
  {
    CompareReflexive(PlanFor(releases, goos, current).remoteVersion);
  }

  /** An installation no newer than one that would be updated is updated to
      the same asset. */
  lemma OlderInstallAlsoUpdates(releases: seq<Release>, goos: string, current: string, older: string)
    requires PlanFor(releases, goos, current).Fetch?
    requires Compare(older, current) <= 0
    ensures PlanFor(releases, goos, older) == PlanFor(releases, goos, current)
  {
    var v := PlanFor(releases, goos, current).remoteVersion;
    if Compare(v, older) <= 0 {
      CompareTransitive(v, older, current);
    }
  }

  /** Releases after the first commercial one are never looked at. */
  lemma LaterReleasesIgnored(releases: seq<Release>, more: seq<Release>, goos: string, current: string)
    requires exists i :: 0 <= i < |releases| && IsCommercial(releases[i])
    ensures PlanFor(releases + more, goos, current) == PlanFor(releases, goos, current)
  {
    var c := FirstCommercial(releases).value;
    var all := releases + more;
    forall j | 0 <= j <= c ensures all[j] == releases[j] { }
    FirstCommercialAt(all, c);
  }
}
