# Pulp release-engineering helpers, modelled in Dafny

This project models three parts of Pulp's developer tooling:

- **`EVR`** (`pulp-dev/pulp_dev/releng_utils.py`): the RPM-style `epoch:major.minor.patch-release` value with its two
  parsing regular expressions, its printed forms, its hand-written `__lt__` and `__eq__`, its PEP 440
  `python_version`, the `next_stage` machine and `increment`. Module `Evr` holds the model; `EvrParsing`
  proves what the regular expressions make of the printed forms (including where `fromstring(str(e))` does
  not give `e` back); `EvrProperties` proves ordering, equality, Python-form and `increment` properties.
  `Decimal`, `Layout` and `EvrLayout` hold digit-run and string-position helpers.
- **The git workflow** (`pulp-dev/pulp_dev/git_workflow.py`): `promotion_chain`, which computes the list of
  `origin/` branches a branch is merged forward through, `generate_promotion_pairs` and `check_merge_forward`.
  Module `GitWorkflow` holds `str.strip`, the `re.search` of the branch expression, the `LooseVersion` key,
  the stable `sorted`, the chain as a specification function and as the imperative loop of the source, the
  pairs and the merge check; `GitWorkflowProperties` proves what the chain consists of.
- **The mention-bot config maker** (`scripts/mention-bot.py`): `find` and the config edits of the `set`,
  `append`, `remove` and `sync` commands. Module `MentionBot` holds the config as a `Config` object whose
  `fields` map the methods update in place, next to the specification functions they are proved against;
  `MentionBotProperties` proves what each edit does to the config.

The output of `git branch -r` is a parameter (`lines`) of the chain, and the output of
`git log "^dest" "src"` is a parameter (`unmerged`) of the merge check. The clock reading that
`_build_nightly_release` takes from `time.strftime` is a parameter (`buildTime`) of `Evr.Construct`.
Errors the source raises (or exits on) are `Failure`/`Fail` values naming the exception.

Where the code and its comments disagree, the model follows the code, and the lemmas show the effect:
`parse_release` compares an `int` with `'0'`, so every alpha/beta/rc release is rejected
(`EvrParsing.PreReleaseAlwaysRejected`), which makes `EVR.lowest()` fail (`EvrParsing.LowestAlwaysFails`)
and `increment` fail on any pre-release receiver (`EvrProperties.IncrementFailsOnPreRelease`); the optional
epoch group of the version expression backtracks into a multi-digit major, so `12.3` parses as epoch 1,
major 2 (`EvrParsing.TwelvePointThree`), and for the same reason `increment` of an epoch-0 EVR with a major of 10
or more moves digits into the epoch although its docstring says the epoch is not incremented
(`EvrProperties.IncrementMovesEpoch`); `__lt__` is not a lexicographic order
(`EvrProperties.LessIsNotLexicographic`).

## Model

| member | source | states |
|---|---|---|
| Evr.LineEnd | pulp-dev/pulp_dev/releng_utils.py:23 | the reach of `.` in the release expression: the first newline at or after the start, or the end of the input, with no newline before it |
| Evr.StageEnd | pulp-dev/pulp_dev/releng_utils.py:23 | a capture of `.+[^.]` is at least two characters long and ends within the input |
| Evr.ParseRelease | pulp-dev/pulp_dev/releng_utils.py:228-247 | an accepted release never carries an alpha, beta or rc stage, and a stage-less accepted release has major at least 1 |
| Evr.Construct | pulp-dev/pulp_dev/releng_utils.py:35-58 | the constructor fails with the missing-commit error exactly when the release is `nightly` and no commit is given; a constructed EVR never has an alpha/beta/rc stage and a stage-less one has release major at least 1 |
| Evr.LastDash | pulp-dev/pulp_dev/releng_utils.py:62 | the split point of `rsplit('-', 1)`: a `-` with none after it, or none when the string holds no `-` |
| Evr.ReplaceColons | pulp-dev/pulp_dev/releng_utils.py:188 | `replace(':', '!')` keeps the length |
| Evr.SomeFieldSmaller | pulp-dev/pulp_dev/releng_utils.py:77-83 | the loop of `__lt__` returns true exactly when some integer component is below the other's |
| Evr.NextStage | pulp-dev/pulp_dev/releng_utils.py:249-261 | `next_stage` raises exactly for a stage that is not absent, a nightly, alpha, beta or rc |
| Evr.Increment | pulp-dev/pulp_dev/releng_utils.py:264-339 | the statement-by-statement `increment` computes the transition table `Incremented` |
| Evr.AdvanceCopy | pulp-dev/pulp_dev/releng_utils.py:294-339 | the assignments to the copy compute `IncrementedCopy`: the target stage, then the release part, then the version part |
| EvrLayout.VersionWithEpoch | pulp-dev/pulp_dev/releng_utils.py:125-131 | with a non-zero epoch the version prints as epoch, `:`, then `major.minor.patch` |
| EvrLayout.VersionWithoutEpoch | pulp-dev/pulp_dev/releng_utils.py:125-131 | with epoch 0 the version prints as `major.minor.patch` from its first character, the dots right after each number |
| EvrLayout.ReleaseWithStage | pulp-dev/pulp_dev/releng_utils.py:133-142 | with a non-empty stage the release prints as `major.minor.stage` |
| EvrLayout.ReleaseWithMinor | pulp-dev/pulp_dev/releng_utils.py:133-142 | without a stage and with a non-zero minor the release prints as `major.minor` |
| EvrLayout.ReleaseNotNightly | pulp-dev/pulp_dev/releng_utils.py:133-142 | a printed release starts with a digit and so is never the literal `nightly` |
| EvrLayout.Dashed | pulp-dev/pulp_dev/releng_utils.py:208-209 | `str()` is the version, a `-`, then the release |
| EvrLayout.NoDashInVersion | pulp-dev/pulp_dev/releng_utils.py:125-131 | the printed version holds no `-` |
| EvrLayout.NoDashInRelease | pulp-dev/pulp_dev/releng_utils.py:133-142 | when the stage holds no `-`, neither does the printed release |
| EvrParsing.CoreAtRuns | pulp-dev/pulp_dev/releng_utils.py:22 | the `major.minor.patch` part of the version expression reads the values of three dot-separated digit runs |
| EvrParsing.CoreMatchAt | pulp-dev/pulp_dev/releng_utils.py:22 | the core expression reads back the three numbers printed at a position |
| EvrParsing.EpochAtRuns | pulp-dev/pulp_dev/releng_utils.py:22 | a leading run, a colon and a matching core give the whole run as the epoch |
| EvrParsing.EpochVersionAt | pulp-dev/pulp_dev/releng_utils.py:217-226 | `E:x.y.z` parses as epoch E and x, y, z |
| EvrParsing.PlainVersionAt | pulp-dev/pulp_dev/releng_utils.py:217-226 | `x.y.z` with a one-digit x parses as epoch 0 and x, y, z |
| EvrParsing.SplitVersionAt | pulp-dev/pulp_dev/releng_utils.py:217-226 | `x.y.z` with x of two or more digits parses as epoch x/10, major x%10 |
| EvrParsing.VersionParsesBack | pulp-dev/pulp_dev/releng_utils.py:217-226 | the printed version parses back to the same four integers when an epoch is printed or the major has one digit |
| EvrParsing.EpochVersionParsesBack | pulp-dev/pulp_dev/releng_utils.py:217-226 | with a non-zero epoch the printed version parses back to the same four integers |
| EvrParsing.VersionSplitsLongMajor | pulp-dev/pulp_dev/releng_utils.py:217-226 | without an epoch, a printed major of 10 or more comes back split into epoch and a one-digit major |
| EvrParsing.TwelvePointThree | pulp-dev/pulp_dev/releng_utils.py:22 | `12.3` parses as epoch 1, major 2, minor 3, patch 0 |
| EvrParsing.StageAt | pulp-dev/pulp_dev/releng_utils.py:23 | the stage group captures a whole one-line tail of two or more characters not ending in a dot |
| EvrParsing.StageEndFinds | pulp-dev/pulp_dev/releng_utils.py:23 | the stage group captures something whenever a non-dot character lies within reach |
| EvrParsing.NothingAtEnd | pulp-dev/pulp_dev/releng_utils.py:23 | at the end of the input the optional minor and stage groups capture nothing |
| EvrParsing.ReleaseAtRuns | pulp-dev/pulp_dev/releng_utils.py:23 | the release expression over two dot-separated digit runs reads their values and the stage after them |
| EvrParsing.ReleaseStageAt | pulp-dev/pulp_dev/releng_utils.py:237 | `x.y.stage` matches as major x, minor y and that stage |
| EvrParsing.ReleaseMinorAt | pulp-dev/pulp_dev/releng_utils.py:237 | `x.y` matches as major x, minor y, no stage |
| EvrParsing.ReleaseMajorAt | pulp-dev/pulp_dev/releng_utils.py:237 | `x` matches as major x, no minor, no stage |
| EvrParsing.ReleaseMatchesBack | pulp-dev/pulp_dev/releng_utils.py:133-142 | the release expression reads the printed release back as its major, its minor (when printed) and its stage |
| EvrParsing.PreReleaseAlwaysRejected | pulp-dev/pulp_dev/releng_utils.py:241-244 | `0.N.alpha` (beta, rc) matches with major 0 and is still rejected, since the guard compares an int with `'0'` |
| EvrParsing.LowestAlwaysFails | pulp-dev/pulp_dev/releng_utils.py:65-67 | `EVR.lowest()` fails: release `0` is stage-less with major 0 |
| EvrParsing.ReleaseParsesBack | pulp-dev/pulp_dev/releng_utils.py:228-247 | the printed release of a re-parseable EVR parses back to the same three fields |
| EvrParsing.CopyIsIdentity | pulp-dev/pulp_dev/releng_utils.py:214-215 | `copy()` reproduces every field of an EVR that re-parses |
| EvrParsing.CopyResplitsLongMajor | pulp-dev/pulp_dev/releng_utils.py:214-215 | `copy()` of an epoch-0 EVR with major of 10 or more moves the major's leading digits into the epoch |
| EvrParsing.LastDashOfPrefix | pulp-dev/pulp_dev/releng_utils.py:62 | every prefix ending after a `-` with none after it splits there |
| EvrParsing.LastDashAt | pulp-dev/pulp_dev/releng_utils.py:62 | `rsplit('-', 1)` splits at a `-` with none after it |
| EvrParsing.SplitsAtSeparator | pulp-dev/pulp_dev/releng_utils.py:60-63 | `rsplit('-', 1)` of `str(e)` cuts exactly between version and release when the stage holds no `-` |
| EvrParsing.FromStringIsCopy | pulp-dev/pulp_dev/releng_utils.py:60-63 | `fromstring(str(e))` is `copy()` of `e` when the stage holds no `-` |
| EvrParsing.FromStringRoundTrip | pulp-dev/pulp_dev/releng_utils.py:60-63 | `fromstring(str(e))` gives back `e` for every EVR that re-parses and whose stage holds no `-` |
| EvrParsing.RoundTripResplitsMajor | pulp-dev/pulp_dev/releng_utils.py:60-63 | `0:10.2.0-1` prints as `10.2.0-1` and comes back as `1:0.2.0-1` |
| EvrParsing.NightlyShapeAt | pulp-dev/pulp_dev/releng_utils.py:123 | a release `0.0.n…` matches with major 0, minor 0 and a stage of two or more characters starting with `n` |
| EvrParsing.NightlyExactAt | pulp-dev/pulp_dev/releng_utils.py:123 | `0.0.<stage>` with a one-line stage not ending in a dot matches that whole stage |
| EvrParsing.NightlyConstruct | pulp-dev/pulp_dev/releng_utils.py:41-47 | `EVR(version, 'nightly', commit)` succeeds with release 0.0 and the captured stage |
| EvrParsing.NightlyRelease | pulp-dev/pulp_dev/releng_utils.py:41-47 | with a commit, a `nightly` release gives release 0.0 and an `n` stage: a nightly, not tagged |
| EvrParsing.NightlyStageExact | pulp-dev/pulp_dev/releng_utils.py:118-123 | when clock reading and hash prefix are on one line and the prefix does not end in a dot, the stage is `n<time>git<hash[0:7]>` |
| EvrProperties.MissingPatchAndTail | pulp-dev/pulp_dev/releng_utils.py:217-226 | a missing patch becomes 0 and only a prefix is matched: `1.2` plus a non-numeric tail parses as `0:1.2.0` |
| EvrProperties.VersionOneTwo | pulp-dev/pulp_dev/releng_utils.py:217-226 | a string starting `1.2` not followed by a digit or dot parses as `0:1.2.0` |
| EvrProperties.NoLeadingDigitNoMatch | pulp-dev/pulp_dev/releng_utils.py:221 | `v1.2` does not match the version expression |
| EvrProperties.InvalidVersionNamesBoth | pulp-dev/pulp_dev/releng_utils.py:52-58 | an unmatched version raises the invalid-EVR error naming both inputs |
| EvrProperties.PrintedVersionParses | pulp-dev/pulp_dev/releng_utils.py:217-226 | every printed version matches the version expression |
| EvrProperties.OtherStagesAccepted | pulp-dev/pulp_dev/releng_utils.py:241-247 | a stage outside alpha/beta/rc is accepted with any release major, 0 included |
| EvrProperties.LessIrreflexive | pulp-dev/pulp_dev/releng_utils.py:75-112 | `e < e` is false |
| EvrProperties.LessWhenAnyFieldSmaller | pulp-dev/pulp_dev/releng_utils.py:77-83 | `a < b` as soon as any integer component of `a` is below that of `b` |
| EvrProperties.LessIsNotLexicographic | pulp-dev/pulp_dev/releng_utils.py:77-83 | `2.0.0-1 < 1.5.0-1` and `1.5.0-1 < 2.0.0-1` both hold |
| EvrProperties.StagedBeforeReleased | pulp-dev/pulp_dev/releng_utils.py:86-95 | with equal integer fields, any stage is below no stage and no stage is below none |
| EvrProperties.StageDecidesAcrossVersions | pulp-dev/pulp_dev/releng_utils.py:86-95 | with no integer field of `2.0.0-1.0.foo` below that of `1.0.0-1`, its stage alone makes it `<` the other |
| EvrProperties.NightlyBeforeOtherStages | pulp-dev/pulp_dev/releng_utils.py:97-104 | a nightly stage is below any other non-empty stage, not above it |
| EvrProperties.PreReleasesInOrder | pulp-dev/pulp_dev/releng_utils.py:106-109 | alpha < beta < rc, and not the other way round |
| EvrProperties.EmptyStageRaises | pulp-dev/pulp_dev/releng_utils.py:97 | an empty stage against a different non-empty one makes `r_stage[0]` raise |
| EvrProperties.EqualButLess | pulp-dev/pulp_dev/releng_utils.py:69-73 | two EVRs with different fields (stage `None` and `''`) are `==` and one is also `<` the other |
| EvrProperties.EqualMeansSameFields | pulp-dev/pulp_dev/releng_utils.py:69-73 | for re-parseable EVRs whose stages hold no `-`, `==` holds exactly when all fields are equal |
| EvrProperties.VersionColonIffEpoch | pulp-dev/pulp_dev/releng_utils.py:125-131 | the version holds a `:` exactly when the epoch is non-zero |
| EvrProperties.DistReleaseExtendsRelease | pulp-dev/pulp_dev/releng_utils.py:144-147 | the dist release is the release followed by `%{?dist}` |
| EvrProperties.ReplaceColonsKeeps | pulp-dev/pulp_dev/releng_utils.py:188 | `replace(':', '!')` leaves a colon-free string unchanged |
| EvrProperties.ReplaceEpochColon | pulp-dev/pulp_dev/releng_utils.py:188 | the colon after a colon-free epoch becomes `!` and nothing else changes |
| EvrProperties.ReplacedVersion | pulp-dev/pulp_dev/releng_utils.py:188 | the replaced version is the epoch part with `!` followed by `major.minor.patch` |
| EvrProperties.PythonBaseVersion | pulp-dev/pulp_dev/releng_utils.py:188-191 | the replaced version less a trailing `.0` for patch 0 is the PEP 440 public version |
| EvrProperties.PythonVersionIs | pulp-dev/pulp_dev/releng_utils.py:162-206 | `python_version` is the public version plus the nightly `dev`, pre-release or `.post` suffix, and fails for a stage outside the map |
| EvrProperties.PythonPreReleaseExamples | pulp-dev/pulp_dev/releng_utils.py:171-176 | `1.2.3-0.1.alpha` is `1.2.3a1`, `0.4.beta` gives `b4`, `0.5.rc` gives `rc5` |
| EvrProperties.PythonGaExample | pulp-dev/pulp_dev/releng_utils.py:177 | `1.2.3-1` is `1.2.3` |
| EvrProperties.PythonZeroPatchExample | pulp-dev/pulp_dev/releng_utils.py:168 | `1.2.0-1` is `1.2` |
| EvrProperties.PythonPostExample | pulp-dev/pulp_dev/releng_utils.py:203-205 | `2:1.2.3-2` is `2!1.2.3.post2` |
| EvrProperties.PythonNightlyExample | pulp-dev/pulp_dev/releng_utils.py:195-197 | `1.2.3-0.0.n<date>` is `1.2.3dev<date>` |
| EvrProperties.StageMachine | pulp-dev/pulp_dev/releng_utils.py:249-258 | none or nightly, then alpha, beta, rc, then none |
| EvrProperties.IncrementFailsOnPreRelease | pulp-dev/pulp_dev/releng_utils.py:292 | `increment` fails on any alpha/beta/rc receiver because its copy is rejected |
| EvrProperties.IncrementedOnOwnFields | pulp-dev/pulp_dev/releng_utils.py:292 | on a re-parseable receiver `increment` works on the receiver's own fields |
| EvrProperties.IncrementNoOp | pulp-dev/pulp_dev/releng_utils.py:297-339 | on a receiver that re-parses, with no version flag and a GA target, `increment` changes nothing |
| EvrProperties.IncrementAdvancesRelease | pulp-dev/pulp_dev/releng_utils.py:332-337 | on a receiver that re-parses, with no version flag and a real target, release becomes `0.<minor+1>` and the stage changes only when `stage=True` |
| EvrProperties.IncrementBumpsVersion | pulp-dev/pulp_dev/releng_utils.py:310-331 | on a receiver that re-parses, a version flag bumps the highest requested component and zeroes those below, leaves the epoch as it was, and sets release `1` or `0.1.<target>` |
| EvrProperties.BumpIsGreaterOnCopy | pulp-dev/pulp_dev/releng_utils.py:310-331 | on the copy, a version bump yields an EVR above it |
| EvrProperties.AdvanceIsGreaterOnCopy | pulp-dev/pulp_dev/releng_utils.py:332-337 | on the copy, advancing the release yields an EVR above it |
| EvrProperties.BumpIsGreater | pulp-dev/pulp_dev/releng_utils.py:310-331 | on a receiver that re-parses, a version bump yields an EVR above the receiver |
| EvrProperties.AdvanceIsGreater | pulp-dev/pulp_dev/releng_utils.py:332-337 | on a receiver that re-parses, advancing the release without a bump yields an EVR above the receiver |
| EvrProperties.IncrementIsGreaterOrSame | pulp-dev/pulp_dev/releng_utils.py:264-339 | on a receiver that re-parses, a successful `increment` yields the receiver itself or an EVR `__lt__` puts above it |
| EvrProperties.MajorBumpIsAlsoLess | pulp-dev/pulp_dev/releng_utils.py:321-324 | `increment(major=True)` of `1.5.0-1` is `2.0.0-1`, and each is `<` the other |
| EvrProperties.StageCycleBreaks | pulp-dev/pulp_dev/releng_utils.py:275-279 | `increment(stage=True)` of `1.2.3-1` gives `1.2.3-0.1.alpha`, and incrementing that fails |
| EvrProperties.IncrementedOnResplitCopy | pulp-dev/pulp_dev/releng_utils.py:292 | on an epoch-0 receiver with a major of 10 or more, `increment` works on the copy whose major's leading digits became the epoch |
| EvrProperties.IncrementMovesEpoch | pulp-dev/pulp_dev/releng_utils.py:281-292 | `increment(patch=True)` of `0:10.2.0-1` is `1:0.2.1-1`, and with no flag it is `1:0.2.0-1` rather than the receiver |
| GitWorkflow.StripLeftIs | pulp-dev/pulp_dev/git_workflow.py:44 | stripping on the left drops exactly the leading whitespace run |
| GitWorkflow.StripRightIs | pulp-dev/pulp_dev/git_workflow.py:44 | stripping on the right drops exactly the trailing whitespace run |
| GitWorkflow.StripIsSlice | pulp-dev/pulp_dev/git_workflow.py:44 | `strip()` is a slice with only whitespace cut off, and it neither starts nor ends with whitespace |
| GitWorkflow.SearchFinds | pulp-dev/pulp_dev/git_workflow.py:67 | a successful `re.search` returns the match at the leftmost position that has one |
| GitWorkflow.SearchMisses | pulp-dev/pulp_dev/git_workflow.py:67-70 | a failed search means the expression matches at no position |
| GitWorkflow.InsertPermutes | pulp-dev/pulp_dev/git_workflow.py:102 | inserting adds exactly that element |
| GitWorkflow.InsertSorted | pulp-dev/pulp_dev/git_workflow.py:102 | inserting into a `LooseVersion`-sorted list keeps it sorted |
| GitWorkflow.SortVersionsSorted | pulp-dev/pulp_dev/git_workflow.py:102 | `sorted(..., key=LooseVersion)` is sorted by the key and a permutation of its input |
| GitWorkflow.Seed | pulp-dev/pulp_dev/git_workflow.py:54-60 | the chain starts with the (stripped) ref |
| GitWorkflow.DevBranches | pulp-dev/pulp_dev/git_workflow.py:105 | each target version becomes its `-dev` branch, in order |
| GitWorkflow.WithRemote | pulp-dev/pulp_dev/git_workflow.py:119 | each branch gets the `origin/` prefix, in order |
| GitWorkflow.PromotionChain | pulp-dev/pulp_dev/git_workflow.py:15-119 | the imperative `promotion_chain` computes the chain specification `Chain` |
| GitWorkflow.ZipAt | pulp-dev/pulp_dev/git_workflow.py:132 | `zip` pairs up elements at equal positions |
| GitWorkflow.PairsAreConsecutive | pulp-dev/pulp_dev/git_workflow.py:122-132 | the promotion pairs of a non-empty chain are its consecutive pairs, one fewer than the chain |
| GitWorkflow.CheckMergeForward | pulp-dev/pulp_dev/git_workflow.py:135-150 | the loop of `check_merge_forward` computes the merge-check specification `MergeCheck` |
| GitWorkflow.FirstUnmergedIs | pulp-dev/pulp_dev/git_workflow.py:144-150 | from any position the check passes exactly when every later pair is merged, and otherwise fails on the first unmerged pair |
| GitWorkflow.MergeCheckIsFirstFailure | pulp-dev/pulp_dev/git_workflow.py:135-150 | an empty chain raises; otherwise the check passes exactly when every pair is merged, and fails naming the first pair that is not |
| GitWorkflowProperties.BranchVersionNumbers | pulp-dev/pulp_dev/git_workflow.py:63 | a matched version is the two digit runs around the dot; its major text is the first run and its `LooseVersion` the two values |
| GitWorkflowProperties.AllVersionsAre | pulp-dev/pulp_dev/git_workflow.py:86-93 | `all_branches` is the set of versions some stripped line names |
| GitWorkflowProperties.CandidatesAre | pulp-dev/pulp_dev/git_workflow.py:86-99 | the target set holds exactly the versions some line names that are newer than the source with the same major, each once |
| GitWorkflowProperties.TargetsAre | pulp-dev/pulp_dev/git_workflow.py:97-102 | the sorted targets: exactly those versions, each once, in `LooseVersion` order, each newer than the source with the same major |
| GitWorkflowProperties.NoMissingBranches | pulp-dev/pulp_dev/git_workflow.py:107-112 | the missing-branches exit never fires: every target came from a branch line |
| GitWorkflowProperties.ChainOutcomes | pulp-dev/pulp_dev/git_workflow.py:44-70 | `master` gives `['master']`; otherwise the chain fails exactly when the start ref has no branch match, naming it |
| GitWorkflowProperties.ChainIsUnprefixed | pulp-dev/pulp_dev/git_workflow.py:76-119 | from a valid start the chain is the prefixed list of seed, own `-dev` branch, targets and master |
| GitWorkflowProperties.ChainLayout | pulp-dev/pulp_dev/git_workflow.py:54-119 | from a valid start the chain is the seed, then the release's own `-dev` branch, then the targets' `-dev` branches in `LooseVersion` order, then `master` unless skipped, each `origin/`-prefixed |
| MentionBot.FirstWhere | scripts/mention-bot.py:33-47 | the index of the first element the predicate accepts, or none exactly when it accepts no element |
| MentionBot.FirstFrom | scripts/mention-bot.py:44-47 | from position `i` on: the first accepted index, or none exactly when none from `i` is accepted |
| MentionBot.Find | scripts/mention-bot.py:33-47 | the loop of `find` computes `FirstWhere` |
| MentionBot.Config.Set | scripts/mention-bot.py:206-222 | `set` writes the field given by the name with the argument it selects |
| MentionBot.Config.AppendStrings | scripts/mention-bot.py:281-296 | the append loop over a list field computes `StringsAppended` |
| MentionBot.Config.AppendActions | scripts/mention-bot.py:297-303 | the append loop over `actions` computes `ActionsAppended` |
| MentionBot.Config.AppendNotify | scripts/mention-bot.py:304-317 | the notify append computes `NotifyAppended` |
| MentionBot.Config.RemoveStrings | scripts/mention-bot.py:376-395 | the remove loop over a list field computes `StringsRemoved` |
| MentionBot.Config.RemoveNotify | scripts/mention-bot.py:396-406 | the notify removal computes `NotifyRemoved`, and leaves the config unchanged when `find` raises |
| MentionBot.Config.Append | scripts/mention-bot.py:281-317 | `append` on a config computes `Appended`, the branch its field name selects |
| MentionBot.Config.Remove | scripts/mention-bot.py:376-406 | `remove` on a config computes `Removed`, leaving the config unchanged on error |
| MentionBot.Sync | scripts/mention-bot.py:450-462 | `sync` computes `Synced` |
| MentionBotProperties.AppendMissingIs | scripts/mention-bot.py:282-284 | appending keeps the old list as a prefix, holds exactly the old and the new values, and adds no repeats |
| MentionBotProperties.AppendPresent | scripts/mention-bot.py:283 | values already present append nothing |
| MentionBotProperties.AppendMissingIdempotent | scripts/mention-bot.py:282-284 | appending the same values twice is appending them once |
| MentionBotProperties.StringsAppendedIs | scripts/mention-bot.py:281-296 | a list-field append puts the missing values at the end, creates the field only when something is appended, and changes no other field |
| MentionBotProperties.StringsAppendedIdempotent | scripts/mention-bot.py:281-296 | repeating a list-field append changes nothing more |
| MentionBotProperties.ActionsAppendedIs | scripts/mention-bot.py:297-303 | the `actions` field ends as the missing actions appended to the existing list, or to `["opened"]` when absent |
| MentionBotProperties.ActionsStartWithOpened | scripts/mention-bot.py:300-301 | appending actions to a config without the field gives a list starting with `opened`, holding each action once |
| MentionBotProperties.FirstWhereAt | scripts/mention-bot.py:44-46 | `find` yields the first position the predicate holds at |
| MentionBotProperties.EntriesAppendedIs | scripts/mention-bot.py:304-317 | after a notify append the first entry with the name has the new `skipTeamPrs` and all given files, earlier entries are unchanged, an existing entry keeps its old files in front and gains only the files it lacked, each once, and otherwise the new entry is at the end |
| MentionBotProperties.EntriesAppendedIdempotent | scripts/mention-bot.py:304-317 | repeating a notify append changes nothing more |
| MentionBotProperties.RemoveAbsent | scripts/mention-bot.py:378-379 | removing a value not in the list leaves it unchanged |
| MentionBotProperties.RemoveFirstAt | scripts/mention-bot.py:379 | `list.remove(v)` cuts out the first occurrence of `v` |
| MentionBotProperties.RemoveFirstCounts | scripts/mention-bot.py:379 | `list.remove(v)` takes away one occurrence of `v`, if there is one |
| MentionBotProperties.RemoveEachIs | scripts/mention-bot.py:377-379 | removing the values one by one takes away their multiset |
| MentionBotProperties.StringsRemovedIs | scripts/mention-bot.py:376-395 | a list-field removal leaves the field with one occurrence fewer per removed value, keeps an absent field absent, and changes no other field |
| MentionBotProperties.NotifyRemovedIs | scripts/mention-bot.py:396-406 | a notify removal fails exactly when the field is present and has no entry with the name; it deletes the field exactly when that leaves it empty and changes no other field |
| MentionBotProperties.NotifyRemovedEntries | scripts/mention-bot.py:398-404 | without files the named entry is removed and the rest keep their order; with files the entry loses one occurrence of each |
| MentionBotProperties.FieldSetIs | scripts/mention-bot.py:206-222 | `set` writes only its one field: a flag field gets the flag, `maxReviewers` and `numFilesToCheck` the user and file counts, `message`, `skipTitle`, `withLabel` and `delayedUntil` the message, title, label and time; any other name, list and notify fields included, leaves the config unchanged |
| MentionBotProperties.SyncUnionIs | scripts/mention-bot.py:450-454 | the union holds every value of the field in any config, each once |
| MentionBotProperties.SyncedIs | scripts/mention-bot.py:450-462 | `sync` fails exactly when some config lacks the field; otherwise every config holds the union, each value once, and is otherwise unchanged |

## Left out

- Reading and writing files, JSON, `argparse`, `print`, `subprocess` and the git steps are not part of this model. The branch list and the `git log` output are parameters; for `sync`, configs are the ones of the repositories whose file exists, in order.
- The clock (`time.strftime`) is a parameter of the nightly release.
- `EVR.__hash__` (a SHA-1 digest), `__repr__` and the stored commit hash: foreign code or display only.
- The `str()` conversion of YAML ints and floats in `EVR.__init__`: inputs are strings.
- The comparators `functools.total_ordering` derives from `__lt__` and `__eq__`. Only `__lt__` and `__eq__` are modelled, and `__eq__` is a predicate although the source returns `None` rather than `False`.
- `__eq__` against a plain string: only EVR-to-EVR comparison is modelled.
- `\d` is read as the ASCII digits, which is what Python 2 `str` patterns match.
- `GitWorkflow.BranchAt`: the unescaped `.` of the branch expression is read as a literal dot. Branch names such as `2x5-dev`, which the source would also accept, are not modelled.
- `GitWorkflow.VersionKey`: `LooseVersion` is reduced to a (major, minor) pair. This is exact for the `x.y` versions the branch expression matches when its `.` is a dot.
- `GitWorkflow.PromotionChain`: the target set is a duplicate-free list in first-seen order. Among versions whose `LooseVersion`s are equal (`2.5` and `2.05`), the order after the stable sort follows first-seen order rather than Python's set iteration order.
- `GitWorkflow.PromotionChain`: line 69 calls `.format` on the `ValueError` object, so Python raises `AttributeError` there. The model reports the invalid start branch instead.
- `GitWorkflow.IsSpace`: `strip()` removes the six ASCII whitespace characters of Python 2 `str`.
- `MentionBot.Config.AppendActions`: `a is not "opened"` is an identity test. It is modelled as string inequality. An `opened` read from the command line is not the interned literal, so in CPython it would start a missing field as `["opened", "opened"]`; the model starts it as `["opened"]`.
- `MentionBot.Config.RemoveNotify`: `len(args.file) is 0` is modelled as `== 0`.
- `MentionBot.Config.Append` and `MentionBot.Config.Remove` require `WellTyped`: list fields hold lists of strings and notify fields hold lists of entries. The per-field methods `MentionBot.Config.AppendStrings`, `MentionBot.Config.AppendActions`, `MentionBot.Config.AppendNotify`, `MentionBot.Config.RemoveStrings` and `MentionBot.Config.RemoveNotify` require the same of the one field they edit. The `TypeError`s of ill-typed configs are not modelled.
- `MentionBot.Sync` requires the synced field, where present, to hold a list of strings. On a string-valued field the source's `set.update` would add the string's characters instead; that case and the `TypeError` of other values are not modelled.
- `MentionBot.Sync`: the output list follows first-seen order; Python's `list(set)` order is unspecified, and `MentionBotProperties.SyncedIs` states only the contents and the absence of repeats.
- `MentionBot.Sync` takes configs as values rather than `Config` objects, because each repository's file is parsed anew and written back.
- The dictionaries the commands build from `args` are modelled as `SetArgs` and `EditArgs`.
