/** CheckAndUpdate of the launcher (cmd/starter.go): the shared release
    decisions, then a prompt whose answer must be one of "y", "yes", "д"
    or "да" (after lower-casing and trimming) for the update to go ahead. */
module Starter {
  import opened Text
  import opened Versions
  import opened Releases

  /** unicode.ToLower on the letters with a simple lower-case mapping that
      the accepted answers involve: ASCII capitals and the capitals of the
      basic Cyrillic block (U+0400..U+042F). */
  function LowerChar(c: char): (r: char)
    ensures 'A' <= c <= 'Z' ==> 'a' <= r <= 'z'
    ensures '\U{0400}' <= c <= '\U{042F}' ==> '\U{0430}' <= r <= '\U{045F}'
    ensures !('A' <= c <= 'Z') && !('\U{0400}' <= c <= '\U{042F}') ==> r == c
  {
    if 'A' <= c <= 'Z' then (c as int + 32) as char
    else if '\U{0410}' <= c <= '\U{042F}' then (c as int + 32) as char
    else if '\U{0400}' <= c <= '\U{040F}' then (c as int + 80) as char
    else c
  }

  /** A character that LowerChar changes. */
  predicate IsUpper(c: char) {
    'A' <= c <= 'Z' || '\U{0400}' <= c <= '\U{042F}'
  }

  /** strings.ToLower, character by character. */
  function ToLower(s: string): (r: string)
    ensures |r| == |s|
    ensures forall i :: 0 <= i < |r| ==> !IsUpper(r[i])
  {
    seq(|s|, i requires 0 <= i < |s| => LowerChar(s[i]))
  }

  /** Lower-casing twice is lower-casing once. */
  lemma ToLowerIdempotent(s: string)
    ensures ToLower(ToLower(s)) == ToLower(s)
  {
    var t := ToLower(s);
    forall i | 0 <= i < |t| ensures LowerChar(t[i]) == t[i] {
      assert !IsUpper(t[i]);
    }
  }

  /** The answer confirms the update: lower-cased and trimmed, it is one of
      "y", "yes", "д", "да". */
  predicate ConfirmsUpdate(answer: string)
    ensures ConfirmsUpdate(answer) ==>
      var input := TrimSpace(ToLower(answer));
      |answer| >= |input| >= 1 && (input[0] == 'y' || input[0] == '\U{0434}')
  {
    var input := TrimSpace(ToLower(answer));
    input == "y" || input == "yes" || input == "\U{0434}" || input == "\U{0434}\U{0430}"
  }

  /** An empty line, the prompt's default, declines. */
  lemma EmptyAnswerDeclines()
    ensures !ConfirmsUpdate("")
  {
    assert ToLower("") == "";
    TrimSpaceNoEdgeSpace("");
  }

  /** The answer is read case-insensitively. */
  lemma ConfirmsCaseInsensitive(answer: string)
    ensures ConfirmsUpdate(ToLower(answer)) == ConfirmsUpdate(answer)
  {
    ToLowerIdempotent(answer);
  }

  /** "YES" is accepted like "yes". */
  lemma UpperCaseYesAccepted()
    ensures ConfirmsUpdate("YES")
  {
    assert ToLower("YES") == "yes";
    TrimSpaceNoEdgeSpace("yes");
  }

  /** The Cyrillic "ДА" is accepted. */
  lemma CyrillicYesAccepted()
    ensures ConfirmsUpdate("\U{0414}\U{0410}")
  {
    assert ToLower("\U{0414}\U{0410}") == "\U{0434}\U{0430}";
    TrimSpaceNoEdgeSpace("\U{0434}\U{0430}");
  }

  /** What the launcher's CheckAndUpdate does with the decoded releases, the
      platform `goos`, the installed version and the user's answer. */
  function Decide(releases: seq<Release>, goos: string, appVersion: string, answer: string): Outcome {
    match PlanFor(releases, goos, appVersion)
    case Failed(e) => Error(e)
    case UpToDate => Latest
    case Fetch(_, url, remote) =>
      if ConfirmsUpdate(answer) then Download(url, ArchiveName(goos, remote)) else Declined
  }

  /** The launcher's CheckAndUpdate after the releases are decoded. */
  method CheckAndUpdate(releases: seq<Release>, goos: string, appVersion: string, answer: string)
    returns (outcome: Outcome)
    ensures outcome == Decide(releases, goos, appVersion, answer)
  {
    var plan := PlanUpdate(releases, goos, appVersion);
    if plan.Failed? {
      return Error(plan.error);
    }
    if plan.UpToDate? {
      return Latest;
    }
    var input := TrimSpace(ToLower(answer));
    if input != "y" && input != "yes" && input != "\U{0434}" && input != "\U{0434}\U{0430}" {
      return Declined;
    }
    var archiveName := goos + "." + plan.remoteVersion + ".zip";
    return Download(plan.downloadURL, archiveName);
  }

  /** A download happens only for a strictly newer version, after the user
      confirmed, from the chosen asset's URL, into a file named like that
      asset when the platform name has no '.'. */
  lemma DownloadOnlyNewerAndConfirmed(releases: seq<Release>, goos: string, appVersion: string, answer: string)
    requires Decide(releases, goos, appVersion, answer).Download?
    ensures ConfirmsUpdate(answer)
    ensures var plan := PlanFor(releases, goos, appVersion);
      && plan.Fetch?
      && Compare(plan.remoteVersion, appVersion) == 1
      && Decide(releases, goos, appVersion, answer).downloadURL == plan.downloadURL
      && ('.' !in goos ==> Decide(releases, goos, appVersion, answer).archiveName == plan.assetName)
  {
    var plan := PlanFor(releases, goos, appVersion);
    PlanFetchIsFirstNewerArchive(releases, goos, appVersion);
    if '.' !in goos {
      var c := FirstCommercial(releases).value;
      var k := FirstPlatformArchive(releases[c].assets, goos).value;
      ArchiveNameMatchesAsset(releases[c].assets[k], goos, plan.remoteVersion);
    }
  }

  /** Without a confirming answer nothing is downloaded, and the outcome is
      the same as with any other non-confirming answer. */
  lemma DeclineNeverDownloads(releases: seq<Release>, goos: string, appVersion: string, answer: string)
    requires !ConfirmsUpdate(answer)
    ensures !Decide(releases, goos, appVersion, answer).Download?
    ensures Decide(releases, goos, appVersion, answer) == Decide(releases, goos, appVersion, "")
  {
    EmptyAnswerDeclines();
  }

  /** The answer is consulted only when a newer version exists: otherwise
      every answer gives the same outcome. */
  lemma AnswerOnlyMattersForNewer(releases: seq<Release>, goos: string, appVersion: string, a1: string, a2: string)
    requires !PlanFor(releases, goos, appVersion).Fetch?
    ensures Decide(releases, goos, appVersion, a1) == Decide(releases, goos, appVersion, a2)
    ensures !Decide(releases, goos, appVersion, a1).Declined?
  {
  }
}
