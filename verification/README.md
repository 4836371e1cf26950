# sr-integration next-version check, modelled in Dafny

sr-integration is a GitHub webhook service. When a pull request is opened or
updated, it lints every commit message of the pull request against the
conventional-commit rules. Then it posts a commit status under the context
`ci/semantic-release`:

- a failure that names the first commit with an invalid message, or
- a success that says which release semantic-release would cut next.

This project models the decision logic of `processNextVersion` and the event
guard at the top of `computeChange`, both in `index.js`. The library calls are
inputs to the model:

- the commit linter's per-commit reports are a `seq<LintReport>`, one per commit;
- the commit analyzer's verdict is an `Option<ReleaseType>`;
- `semver.inc` is modelled on normal `X.Y.Z` versions, following items 2, 6, 7,
  8 and 11 of Semantic Versioning 2.0.0.

Modules:

- `Wrappers`: `Option` and `Result`.
- `Text`: join, split and substring facts used by the descriptions and the version text.
- `Decimal`: canonical decimal numerals and their round trip.
- `SemVer`: versions, precedence, the three increments, version text and `Inc`.
- `Lint`: lint reports and the first-invalid search (`findIndex`).
- `NextVersion`: commit projection, the `Decision` record and the decision itself.
- `Webhook`: the `computeChange` guard.

With an empty commit list, every report is trivially valid. The code then takes
the success branch, and `commits.slice(-1).pop().hash` throws. The model returns
`Err(NoLastCommit)` for that case instead of requiring a non-empty list.

A current version that `semver.inc` cannot read makes it return `null`. The code
then reports a success with "no new release expected", and the model does the
same. It does not treat this as a configuration error.

The first test (`__tests__/next-version.test.js:13`) expects the no-release
description to contain "unchanged". The code writes "no new release expected".
`NextVersion.NoReleaseWordingLacksUnchanged` proves that this wording does not
contain "unchanged". The model follows the code.

## Model

| member | source | states |
|---|---|---|
| NextVersion.Project | index.js:120-123 | the projection keeps the number and order of commits; each record takes `message` from `commit.message` and `hash` from `sha` |
| Lint.FirstInvalid | index.js:145 | the result is -1 exactly when every report is valid; otherwise it is an invalid report's index, and every report before it is valid |
| Lint.FirstInvalidUnique | index.js:145 | any invalid index preceded only by valid reports is the index the search returns |
| Lint.FirstInvalidConcat | index.js:142-145 | searching a concatenation is searching the first half, then the second half offset by the first half's length, so validating halves separately selects the same commit |
| NextVersion.Decide | index.js:144-175 | an error results exactly when there are no commits; the context is always `ci/semantic-release`; the state is failure exactly when some report is invalid; a failure carries the first invalid commit's hash, its commit URL and its tags-plus-message description; a success carries the last commit's hash, no URL, and the description of the increment's outcome |
| NextVersion.ProcessNextVersion | index.js:119-176 | from API commit entries: an error results exactly when the list is empty; the state is failure exactly when some report is invalid; a failure is attached to the `sha` of the first entry whose report is invalid, a success to the `sha` of the last entry |
| NextVersion.FirstInvalidCommitWins | index.js:145-158 | when commit i is invalid and all commits before it are valid, the decision is the failure for commit i: its hash, `https://github.com/<repo>/commit/<hash>`, and its description |
| NextVersion.FailureIgnoresVersion | index.js:147-159 | when some commit is invalid, the decision does not depend on the release type or the current version |
| NextVersion.FailureTagsEveryRule | index.js:150-155 | every violated rule's `[name]` tag occurs in the failure description |
| NextVersion.ReadSuccessDescription | index.js:163-166 | the two success wordings are distinguishable: reading the description back recovers exactly the increment's outcome, either no version or the next version |
| NextVersion.SuccessAnnouncesBump | index.js:161-173 | if all commits are valid, a release type is given and the current version is normal, the success description names a version that reads back as that version bumped by that release type |
| NextVersion.SuccessWithoutRelease | index.js:161-173 | if all commits are valid and either no release type is given or the version is unreadable, the decision is success on the last commit with exactly "no new release expected" |
| NextVersion.NoReleaseWordingLacksUnchanged | __tests__/next-version.test.js:9-14 | the no-release wording does not contain "unchanged", the word the test expects |
| NextVersion.PatchScenario | __tests__/next-version.test.js:16-21 | one valid commit, a patch release and "1.0.0" give success on that commit with "expected next release: 1.0.1" |
| SemVer.Bump | index.js:162 | the increment gives a version of higher precedence whose most significant changed component is the one the release type names; it is the least such version |
| SemVer.BumpMonotone | index.js:162 | a larger release type (patch < minor < major) never gives a version of lower precedence |
| SemVer.ParseVersion | index.js:162 | only canonical `X.Y.Z` text is read: formatting a version that was read gives back the input text |
| SemVer.ParseFormat | index.js:162 | formatting a version and reading it back gives the same version |
| SemVer.Inc | index.js:162 | the increment yields text exactly when a release type is given and the version is a normal version; that text reads back as the bumped version |
| SemVer.IncPatchExample | __tests__/next-version.test.js:17-19 | "1.0.0" incremented by a patch release is "1.0.1" |
| Text.JoinContainsParts | index.js:150 | each part of a space-joined list occurs in the joined text |
| Webhook.GuardAsWritten | index.js:39-52 | the handler proceeds exactly when the action lookup in `{synchronize: 1, opened: 1}` is truthy and the pull request is open; it throws exactly when the lookup is truthy and the payload has no pull request |
| Webhook.Guard | index.js:38-52 | the intended guard proceeds exactly for action `synchronize` or `opened` on a pull request whose state is `open`; it throws exactly when such an action comes without a pull request |
| Webhook.GuardsAgreeOnOrdinaryActions | index.js:40-47 | for any action that is not an inherited Object.prototype name, the guard as written and the intended guard agree |
| Webhook.GuardAsWrittenAdmitsInheritedName | index.js:40-47 | action "constructor" on an open pull request passes the guard as written but not the intended guard |

## Left out

- The webhook server, hook registration and the module-export switch (index.js:178-197): process plumbing.
- Everything in `computeChange` after the guard (index.js:54-116), including the GitHub client and its OAuth setup (index.js:22-36). This covers fetching package.json, the npm registry lookup, the pending and final `createStatus` calls and `getCommits`. All of it is network I/O.
- The commit linter: `load`, `lint`, the rule configuration (index.js:126-137) and its severities. Reports are inputs. The model does not assume that `valid` holds exactly when `errors` is empty.
- The commit analyzer's classification of commits into a release type. Its result is an input, and a rejection from the analyzer is not modelled.
- Promise sequencing (`Promise.all`, `.then`, `.catch`): the model is one synchronous function.
- SemVer.ParseVersion: reads only canonical `X.Y.Z`. The `semver` package also accepts a leading `v`, surrounding whitespace, and pre-release or build suffixes, which the model reads as no version. The package also rejects components above 2^53-1 and strings over 256 characters, which the model accepts.
- SemVer.Inc: a current version with a pre-release suffix is left out. The model reads it as no version, so "1.0.0-beta.1" with a patch release gives "no new release expected", where `semver.inc` strips the suffix and gives "1.0.0". The pre-release increments (`premajor`, `prerelease`, ...) are not modelled either, because the analyzer only reports patch, minor or major.
- A failure description that contains no version text cannot be promised in general: the commit message or a rule name may itself contain "1.". NextVersion.FailureIgnoresVersion states the part that does hold: no version feeds into a failure.

## Findings

| source | as written | input that shows it | evidently intended | confidence | as-written member | corrected member |
|---|---|---|---|---|---|---|
| index.js:40-47 | `valid[action]` reads a plain object literal, so every name inherited from Object.prototype (`constructor`, `toString`, `__proto__`, ...) is truthy and passes the action check | a `pull_request` event with action "constructor" on an open pull request | only the actions `synchronize` and `opened` proceed | medium, not executed | Webhook.GuardAsWritten, Webhook.GuardAsWrittenAdmitsInheritedName | Webhook.Guard |
