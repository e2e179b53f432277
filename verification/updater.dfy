/** CheckAndUpdate of the Windows client (cmd/client/updater.go): the shared
    release decisions against the client's own version, with no prompt. */
module Updater {
  import opened Results
  import opened Versions
  import opened Releases

  /** What the client's CheckAndUpdate does with the decoded releases, the
      platform `goos` and the client's CurrentVersion. */
  function Decide(releases: seq<Release>, goos: string, currentVersion: string): Outcome {
    match PlanFor(releases, goos, currentVersion)
    case Failed(e) => Error(e)
    case UpToDate => Latest
    case Fetch(_, url, remote) => Download(url, ArchiveName(goos, remote))
  }

  /** The client's CheckAndUpdate after the releases are decoded. */
  method CheckAndUpdate(releases: seq<Release>, goos: string, currentVersion: string)
    returns (outcome: Outcome)
    ensures outcome == Decide(releases, goos, currentVersion)
  {
    var plan := PlanUpdate(releases, goos, currentVersion);
    if plan.Failed? {
      return Error(plan.error);
    }
    if plan.UpToDate? {
      return Latest;
    }
    var archiveName := goos + "." + plan.remoteVersion + ".zip";
    return Download(plan.downloadURL, archiveName);
  }

  /** The client never asks, so it never reports a declined update. */
  lemma NeverDeclines(releases: seq<Release>, goos: string, currentVersion: string)
    ensures !Decide(releases, goos, currentVersion).Declined?
  {
  }

  /** Once a commercial release carries an archive for the platform with a
      URL and a readable version `remote`, the client downloads exactly when
      `remote` is strictly newer, and otherwise reports the latest version. */
  lemma DownloadIffNewer(releases: seq<Release>, goos: string, currentVersion: string, remote: string)
    requires FirstCommercial(releases).Some?
    requires var (name, url) := ChosenAsset(releases[FirstCommercial(releases).value].assets, goos);
      url != "" && ExtractVersion(name) == Ok(remote)
    ensures !Decide(releases, goos, currentVersion).Declined?
    ensures Decide(releases, goos, currentVersion).Download? <==> Compare(remote, currentVersion) > 0
    ensures Decide(releases, goos, currentVersion) == Latest <==> Compare(remote, currentVersion) <= 0
  {
    NotNewerMeansNoFetch(releases, goos, currentVersion, remote);
  }

  /** After installing the downloaded version, the same releases report the
      client as up to date. */
  lemma InstalledVersionIsLatest(releases: seq<Release>, goos: string, currentVersion: string)
    requires PlanFor(releases, goos, currentVersion).Fetch?
    ensures Decide(releases, goos, PlanFor(releases, goos, currentVersion).remoteVersion) == Latest
  {
    UpdateReachesFixpoint(releases, goos, currentVersion);
  }
}
