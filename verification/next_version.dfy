/** The decision a pull request's commits lead to (`processNextVersion` in
    index.js): the first commit whose lint report is invalid fails the
    check; otherwise the check succeeds and predicts the next release.
    The lint reports and the commit analyzer's release type are inputs. */
module NextVersion {
  import opened Wrappers
  import opened Lint
  import SemVer
  import Text

  /** The `commit` object of an API commit entry; only its message is read. */
  datatype CommitInfo = CommitInfo(message: string)

  /** One entry of the pull request's commit list as the hosting API returns it. */
  datatype PullRequestCommit = PullRequestCommit(sha: string, commit: CommitInfo)

  /** A commit as the linter and the analyzer see it. */
  datatype Commit = Commit(message: string, hash: string)

  /** The two verdicts the check posts as a commit status. */
  datatype State = Success | Failure

  /** The commit status to post. `targetUrl` is present on failure only. */
  datatype Decision = Decision(
    state: State,
    description: string,
    sha: string,
    context: string,
    targetUrl: Option<string>)

  /** Why the promise chain rejects instead of producing a decision: with no
      commits there is no last commit whose hash the success status needs. */
  datatype Fault = NoLastCommit

  const Context: string := "ci/semantic-release"
  const NoRelease: string := "no new release expected"
  const NextReleasePrefix: string := "expected next release: "

  /** Keeps each API entry's message and sha, in order. */
  function Project(data: seq<PullRequestCommit>): (commits: seq<Commit>)
    ensures |commits| == |data|
    ensures forall i :: 0 <= i < |data| ==>
      commits[i].message == data[i].commit.message && commits[i].hash == data[i].sha
  {
    if |data| == 0 then []
    else [Commit(data[0].commit.message, data[0].sha)] + Project(data[1..])
  }

  /** A violated rule as it appears in a failure description: `[name]`. */
  function Tag(e: RuleError): string {
    "[" + e.name + "]"
  }

  function Tags(errors: seq<RuleError>): seq<string> {
    seq(|errors|, i requires 0 <= i < |errors| => Tag(errors[i]))
  }

  /** The violated rules' tags separated by single spaces, a space, then the
      commit message in backticks. */
  function FailureDescription(errors: seq<RuleError>, message: string): string {
    Text.Join(Tags(errors), " ") + " `" + message + "`"
  }

  /** The page of commit `sha` in repository `repo` ("owner/name"). */
  function TargetUrl(repo: string, sha: string): string {
    "https://github.com/" + repo + "/commit/" + sha
  }

  /** The success description for the increment's outcome. */
  function SuccessDescription(next: Option<string>): string {
    match next
    case None => NoRelease
    case Some(n) => NextReleasePrefix + n
  }

  /** Reads the predicted version back out of a success description. */
  function ReadNextRelease(description: string): Option<string> {
    if Text.IsPrefix(NextReleasePrefix, description)
    then Some(description[|NextReleasePrefix|..])
    else None
  }

  /** The decision for a commit list, its lint reports (one per commit, in
      order), the analyzer's release type and the current version. */
  function Decide(
    repo: string, commits: seq<Commit>, reports: seq<LintReport>,
    release: Option<SemVer.ReleaseType>, version: string): (r: Result<Decision, Fault>)
    requires |reports| == |commits|
    ensures r.Err? <==> |commits| == 0
    ensures r.Ok? ==> r.value.context == Context
    ensures r.Ok? ==>
      (r.value.state == Failure <==> exists i :: 0 <= i < |reports| && !reports[i].valid)
    ensures r.Ok? && r.value.state == Failure ==>
      var i := FirstInvalid(reports);
      && 0 <= i < |commits|
      && r.value.sha == commits[i].hash
      && r.value.targetUrl == Some(TargetUrl(repo, commits[i].hash))
      && r.value.description == FailureDescription(reports[i].errors, commits[i].message)
    ensures r.Ok? && r.value.state == Success ==>
      && r.value.sha == commits[|commits| - 1].hash
      && r.value.targetUrl.None?
      && r.value.description == SuccessDescription(SemVer.Inc(version, release))
  {
    var badIndex := FirstInvalid(reports);
    if badIndex != -1 then
      var sha := commits[badIndex].hash;
      Ok(Decision(
        Failure,
        FailureDescription(reports[badIndex].errors, commits[badIndex].message),
        sha,
        Context,
        Some(TargetUrl(repo, sha))))
    else if |commits| == 0 then
      Err(NoLastCommit)
    else
      Ok(Decision(
        Success,
        SuccessDescription(SemVer.Inc(version, release)),
        commits[|commits| - 1].hash,
        Context,
        None))
  }

  /** The whole step from the API's commit entries to the decision. The
      status is attached to the first entry whose report is invalid, or to
      the last entry when every report is valid. */
  function ProcessNextVersion(
    repo: string, data: seq<PullRequestCommit>, reports: seq<LintReport>,
    release: Option<SemVer.ReleaseType>, version: string): (r: Result<Decision, Fault>)
    requires |reports| == |data|
    ensures r.Err? <==> |data| == 0
    ensures r.Ok? ==> exists i :: 0 <= i < |data| && r.value.sha == data[i].sha
    ensures r.Ok? ==>
      (r.value.state == Failure <==> exists i :: 0 <= i < |reports| && !reports[i].valid)
    ensures r.Ok? && r.value.state == Failure ==> r.value.sha == data[FirstInvalid(reports)].sha
    ensures r.Ok? && r.value.state == Success ==> r.value.sha == data[|data| - 1].sha
  {
    var commits := Project(data);
    var r := Decide(repo, commits, reports, release, version);
    if r.Ok? then
      var i := if r.value.state == Failure then FirstInvalid(reports) else |data| - 1;
      assert r.value.sha == data[i].sha;
      r
    else r
  }

  /** Whichever invalid commit comes first is the one the failure names, and
      the failure carries neither the release type nor the version. */
  lemma FirstInvalidCommitWins(
    repo: string, commits: seq<Commit>, reports: seq<LintReport>,
    release: Option<SemVer.ReleaseType>, version: string, i: nat)
    requires |reports| == |commits|
    requires i < |reports| && !reports[i].valid
    requires forall j :: 0 <= j < i ==> reports[j].valid
    ensures Decide(repo, commits, reports, release, version) ==
      Ok(Decision(
        Failure,
        FailureDescription(reports[i].errors, commits[i].message),
        commits[i].hash,
        Context,
        Some(TargetUrl(repo, commits[i].hash))))
  {
  }

  /** A failure does not depend on the release type or the current version:
      no version is computed on that path. */
  lemma FailureIgnoresVersion(
    repo: string, commits: seq<Commit>, reports: seq<LintReport>,
    release: Option<SemVer.ReleaseType>, version: string,
    release': Option<SemVer.ReleaseType>, version': string)
    requires |reports| == |commits|
    requires exists i :: 0 <= i < |reports| && !reports[i].valid
    ensures Decide(repo, commits, reports, release, version) ==
            Decide(repo, commits, reports, release', version')
  {
  }

  /** Every violated rule's tag appears in the failure description. */
  lemma FailureTagsEveryRule(errors: seq<RuleError>, message: string, k: nat)
    requires k < |errors|
    ensures Text.IsInfix(Tag(errors[k]), FailureDescription(errors, message))
  {
    var tags := Tags(errors);
    Text.JoinContainsParts(tags, " ", k);
    Text.InfixBefore(tags[k], Text.Join(tags, " "), " `" + message + "`");
    assert Text.Join(tags, " ") + (" `" + message + "`") == FailureDescription(errors, message);
  }

  /** The two success wordings cannot be confused: reading a success
      description back yields exactly the increment's outcome. */
  lemma ReadSuccessDescription(next: Option<string>)
    ensures ReadNextRelease(SuccessDescription(next)) == next
  {
    if next.None? {
      assert NoRelease[0] != NextReleasePrefix[0];
    } else {
      assert (NextReleasePrefix + next.value)[..|NextReleasePrefix|] == NextReleasePrefix;
    }
  }

  /** When every commit is valid and the analyzer reports a release type for
      a normal current version, the success description announces the
      version that release type bumps to. */
  lemma SuccessAnnouncesBump(
    repo: string, commits: seq<Commit>, reports: seq<LintReport>,
    rt: SemVer.ReleaseType, version: string, v: SemVer.Version)
    requires |reports| == |commits| > 0
    requires forall i :: 0 <= i < |reports| ==> reports[i].valid
    requires SemVer.ParseVersion(version) == Some(v)
    ensures Decide(repo, commits, reports, Some(rt), version).Ok?
    ensures
      var d := Decide(repo, commits, reports, Some(rt), version).value;
      && d.state == Success
      && ReadNextRelease(d.description).Some?
      && SemVer.ParseVersion(ReadNextRelease(d.description).value) == Some(SemVer.Bump(v, rt))
  {
  }

  /** Without a release type, or with a current version that is not a
      normal version, a clean commit list succeeds with the no-release
      wording. */
  lemma SuccessWithoutRelease(
    repo: string, commits: seq<Commit>, reports: seq<LintReport>,
    release: Option<SemVer.ReleaseType>, version: string)
    requires |reports| == |commits| > 0
    requires forall i :: 0 <= i < |reports| ==> reports[i].valid
    requires release.None? || SemVer.ParseVersion(version).None?
    ensures Decide(repo, commits, reports, release, version) ==
      Ok(Decision(Success, NoRelease, commits[|commits| - 1].hash, Context, None))
  {
  }

  /** The no-release wording does not contain "unchanged", the word the
      repository's first test looks for. */
  lemma NoReleaseWordingLacksUnchanged()
    ensures !Text.IsInfix("unchanged", NoRelease)
  {
    assert 'u' !in NoRelease;
    if Text.IsInfix("unchanged", NoRelease) {
      Text.InfixHead("unchanged", NoRelease);
    }
  }

  /** The patch scenario: one valid commit, a patch release and version
      "1.0.0" give a success predicting "1.0.1" on that commit. */
  lemma PatchScenario(c: PullRequestCommit)
    ensures ProcessNextVersion("remy/nodemon", [c], [LintReport(true, [])], Some(SemVer.Patch), "1.0.0") ==
      Ok(Decision(Success, "expected next release: 1.0.1", c.sha, Context, None))
  {
    SemVer.IncPatchExample();
    var commits := Project([c]);
    assert commits == [Commit(c.commit.message, c.sha)];
    var reports := [LintReport(true, [])];
    assert FirstInvalid(reports) == -1;
    assert SuccessDescription(Some("1.0.1")) == "expected next release: 1.0.1";
  }
}
