# esgf_build.py in Dafny

A model of the decision logic of `esgf_build.py`, the build driver of the
ESGF (Earth System Grid Federation) Java repositories. A run has three
stages. The sync stage brings every selected repository to a branch or to
its latest tag and writes the taglist and commits-since-tag reports. The
build stage optionally tags each repository with a bumped semantic version,
runs its ant targets, and writes the build history. The release stage
creates or updates a GitHub release for each repository's latest tag.

External programs (git, ant, javac, GitHub) are replaced by their results,
which the model takes as inputs:

- tag lists with optional commit times
- local branch names
- ant exit statuses
- log file contents
- `javac -version` output
- the tags that already have a release, taken to be the tag names `get_releases` yields

Each interactive `raw_input` loop becomes a method that reads a sequence of
typed lines. When the lines run out, it fails with EOFError, which is what
`raw_input` raises at end of input.

Modules, one per concern of the script:

- `Builtins`: the Python 2 built-ins the script relies on:
  - truthiness
  - `lower`, `rstrip`, `strip`, `startswith`, `in` on strings
  - `split`, `replace`
  - `int()`
  - list indexing with negative indexes
  - the exceptions
- `Prompts`: the first accepted answer of an answer loop.
- `Tags`: `get_latest_tag`.
- `GitReports`: the taglist and commits-since-tag blocks, and `get_most_recent_commit`.
- `Branches`: `list_branches`, `choose_branch`, the branch directive of `update_all`, and the git calls of `update_repo`.
- `SemVer`: the part of Semantic Versioning 2.0.0 the script uses: items 2, 6 to 8 and 11.
- `VersionBump`: `bump_tag_version`.
- `AntUtils`: `clean`, `pull`, `build`, `publish_local` and `build_all`.
- `BuildHistory`: `create_build_history`.
- `Release`: `query_for_upload` and `esgf_upload`.
- `Selection`: `create_build_list`, `select_repos` and the repository arguments of `main`.
- `Preflight`: the version test of `check_java_compiler`.

Each loop of the script is a method. It is proved equal to a recursive
specification function, and lemmas state what the script promises about that
function.

Three facts about the code that its comments and messages do not make plain:

- **Checkout failures.** Every failure of the latest-tag checkout in
  `update_repo` is dropped, not only exit status 128 (esgf_build.py:83-87):
  the `if err.retcode == 128: pass` has no other branch
  (`Branches.LatestCheckoutIgnoresStatus`).
- **Empty build list.** The "No applicable repos selected" exit at
  esgf_build.py:353-355 is unreachable. Splitting always yields at least one
  field, and each field either names a repository or raises ValueError or
  IndexError (`Selection.BuildListNeverEmpty`).
- **Compiler check.** The compiler test is a prefix test of the second
  space-separated word of the `javac -version` output against "1.8.0"
  (esgf_build.py:442-443).

## Model

| member | source | states |
|---|---|---|
| Tags.LatestTag | esgf_build.py:33-52 | the filter loop, stable sort and last element yield the latest-committed tag; IndexError exactly when no tag points at a commit |
| Tags.LatestTagNameIsLatest | esgf_build.py:42-51 | the result is Err(IndexError) iff no tag has a commit; otherwise it names a tag no commit of which is later, and every later-listed tag is strictly earlier (ties go to the last listed) |
| Tags.Committed | esgf_build.py:42-49 | the filter keeps at most every tag, and all of them when every tag points at a commit |
| Tags.CommittedCovers | esgf_build.py:42-49 | every tag that points at a commit is kept, with its name and commit time |
| Tags.CommittedFrom | esgf_build.py:42-49 | every kept entry is a listed tag with that commit time, so nothing else is kept |
| Tags.LatestTagName | esgf_build.py:42-51 | a failure is IndexError; a result is the name of a listed tag that points at a commit |
| Tags.SortByTime | esgf_build.py:50 | the sort keeps length and is a permutation of its input |
| Tags.SortedBySortByTime | esgf_build.py:50 | the sort orders commit times non-decreasingly |
| Tags.SortByTimeLast | esgf_build.py:50-51 | the last element of the stable sort is a maximum, and among equal maxima the one that came last in the input |
| Tags.CommittedLatest | esgf_build.py:42-49 | the latest element of the pruned list is the latest committed tag of the full listing |
| Tags.LatestTagNameFails | esgf_build.py:50-51 | indexing the sorted list fails, with IndexError, exactly when no tag points at a commit |
| Tags.IsLatestTagUnique | esgf_build.py:50-51 | at most one tag satisfies the latest-tag characterisation, so the result is determined |
| GitReports.TaglistBlockLines | esgf_build.py:55-61 | a taglist block is exactly the lines rule, repository name, rule, tag and an empty line, each ended by a newline |
| GitReports.CommitsSinceTagBlock | esgf_build.py:64-75 | nothing is written iff there are no commits since the tag; otherwise it is exactly the rule, the header line naming tag and repository, the rule again, then the log and a newline (start, end and length fixed) |
| GitReports.TextBefore | esgf_build.py:160 | `split(sep)[0]` is a prefix that contains no occurrence of the separator, followed by the separator or the end of the text |
| GitReports.MostRecentCommit | esgf_build.py:157-161 | the result is the prefix of the log before the first "\ncommit", or the whole log when there is none |
| Branches.BranchNames | esgf_build.py:107-109 | one name per branch, in order; a name is listed iff some branch has it |
| Branches.ChosenBranch | esgf_build.py:379-392 | the first line whose lower-cased form is a branch or "latest", returned as typed; EOFError iff no line is accepted |
| Branches.ChooseBranch | esgf_build.py:379-392 | the prompt loop returns what ChosenBranch specifies |
| Branches.ResolveBranch | esgf_build.py:130-137 | a falsy directive defers to choose_branch; "latest" passes; another directive succeeds iff a local branch has that name, and then is the active branch; otherwise ValueError with the script's message |
| Branches.ResolvedBranchExists | esgf_build.py:130-137 | a resolved branch is "latest" or a local branch, up to case when it was typed interactively |
| Branches.UpdateRepo | esgf_build.py:78-94 | for "latest", the latest tag is checked out as a branch of the same name or IndexError; otherwise success iff checkout and pull both exit 0, with checkout then pull of "b:b"; a failing checkout raises its CommandError before any pull, else a failing pull raises its own |
| Branches.LatestCheckoutIgnoresStatus | esgf_build.py:83-87 | the latest-tag checkout's exit status never changes the outcome; it succeeds iff some tag has a commit |
| SemVer.ParseFormat | esgf_build.py:264-275 | a formatted version reads back as itself |
| SemVer.BumpIsLeastChange | esgf_build.py:264-275 | each bump has higher precedence and changes its component, and is the least version that does |
| VersionBump.SelectedPart | esgf_build.py:266-276 | a selection picks a component exactly when it is that component's menu number or its lower-case name |
| VersionBump.ChosenPart | esgf_build.py:261-279 | a component is chosen iff some candidate selection is acceptable |
| VersionBump.BumpedTagShape | esgf_build.py:260-276 | a bumped tag is "v" followed by text that parses as the bump of the version without its 'v's; it fails iff that version does not parse |
| VersionBump.BumpedTagAgain | esgf_build.py:260-276 | bumping a tag that a bump produced bumps the version it spells, so successive releases compose |
| VersionBump.BumpedTagExamples | esgf_build.py:268-276 | v1.2.3 bumps to v1.2.4, v1.3.0 and v2.0.0 |
| VersionBump.BumpOutcome | esgf_build.py:258-279 | reference for bump_tag_version: ValueError for an unparsable version, else the bump of the first acceptable selection, else EOFError |
| VersionBump.BumpOutcomeIsBump | esgf_build.py:258-279 | a tag is returned iff the version parses and some selection is acceptable; it is "v" and the bump chosen by the first acceptable selection and has higher precedence; otherwise ValueError (malformed version) or EOFError |
| VersionBump.BumpTagVersion | esgf_build.py:258-279 | the selection loop returns what BumpOutcome specifies |
| Builtins.RemoveAll | esgf_build.py:260 | `replace("v", "")` leaves no 'v' anywhere and keeps every other character |
| Builtins.RemoveAllAppend | esgf_build.py:260 | removal works piecewise over a concatenation, so the kept characters keep their order |
| Builtins.RemoveAllSingle | esgf_build.py:260 | a single character is dropped iff it is the removed one |
| Builtins.PyIndex | esgf_build.py:351 | Python indexing: in range from either end gives the element, counting from the end for negative indexes; IndexError otherwise |
| Builtins.SplitJoin | esgf_build.py:344 | splitting the join of separator-free fields gives the fields back |
| Builtins.JoinSplit | esgf_build.py:344 | joining the fields of a split gives the text back |
| Builtins.ParseInt | esgf_build.py:346 | `int()` rejects blank text, a negative value is written with a leading minus, and a plain digit string reads as its decimal value |
| Builtins.ParseIntAccepts | esgf_build.py:346 | `int()` accepts exactly the text that, once stripped, is an optional sign and at least one decimal digit, and reads it as that signed decimal value; everything else is ValueError |
| Builtins.ParseIntRoundTrip | esgf_build.py:346 | `int(str(n)) == n` |
| Builtins.RStrip | esgf_build.py:252 | `rstrip()` is the longest prefix not ending in white space, everything removed being white space |
| Builtins.Lower | esgf_build.py:386 | `lower()` keeps the length and lower-cases each character |
| Prompts.FirstAccepted | esgf_build.py:382-391 | the index of the first accepted answer, every earlier one rejected; none iff all are rejected |
| AntUtils.BuildProfile | esgf_build.py:215-234 | four steps exactly for repositories other than esgf-getcert and esgf-stats-api, two for those; the first step cleans, with "clean" for esgf-getcert and the default "clean_all" for every other repository; every repository but esgf-getcert runs each wrapper's default target |
| AntUtils.RunSteps | esgf_build.py:167-197 | one ant call per step made, in step order and with the step's log; a failure is the CommandError of the last call made, every earlier call having exited 0 |
| AntUtils.ProfileOrder | esgf_build.py:215-234 | every profile cleans first, keeps the order clean, pull, build, publish-local with no step twice, builds with the repository's build target, and pulls and publishes exactly for repositories other than esgf-getcert and esgf-stats-api |
| AntUtils.RunStepsSucceeds | esgf_build.py:167-197 | the steps succeed iff every target exits 0, and then made exactly one ant call per step, in order, with its log |
| AntUtils.RepoRun | esgf_build.py:209-234 | reference for one iteration of the build loop: the bump tagging (or its error), then the repository's profile run by RunSteps |
| AntUtils.BuildRun | esgf_build.py:205-235 | reference for the build loop: the iterations in build-list order, stopping after the first that fails |
| AntUtils.BuildRunFailsAtFirst | esgf_build.py:205-235 | the build fails iff some repository's iteration fails, and then with that of the first failing repository, all before it succeeding |
| AntUtils.RepoRunWritesBuildLog | esgf_build.py:183-189 | an iteration that goes through has run the repository's build target into its -build.log |
| AntUtils.BuildRunWritesBuildLogs | esgf_build.py:183-189 | after a successful build every repository of the list has had its build target run into its -build.log |
| AntUtils.BuildRunStops | esgf_build.py:205-235 | once a repository fails, the later repositories do nothing |
| AntUtils.BuildRepo | esgf_build.py:209-234 | one iteration: with a bump, the latest tag is bumped and tagged, then the profile runs, as RepoRun specifies |
| AntUtils.BuildAll | esgf_build.py:200-236 | the per-repository loop does what BuildRun specifies |
| BuildHistory.LastBuildLine | esgf_build.py:250-254 | the reversed scan finds the last line containing "BUILD", no later line containing it; none iff no line does |
| BuildHistory.HistoryEntryMentionsBuild | esgf_build.py:251-252 | a history line starts with the repository and a colon and still contains "BUILD" after rstrip |
| BuildHistory.ScanBuildLog | esgf_build.py:250-254 | the backwards scan of one log returns the repository's history entry: its last BUILD line, or none |
| BuildHistory.HistoryEntry | esgf_build.py:250-252 | a repository's history line, when it has one, starts with its name and a colon |
| BuildHistory.HistoryEntryNone | esgf_build.py:250-252 | a repository has no history line exactly when no line of its log contains "BUILD" |
| BuildHistory.HistoryEntries | esgf_build.py:247-254 | never more lines than repositories; the only failure is IOError for a log that does not exist |
| BuildHistory.HistoryFailure | esgf_build.py:247-254 | no more lines than repositories; failure iff some build log is missing, with IOError naming the first missing log in build-list order |
| BuildHistory.Kept | esgf_build.py:247-254 | the positions of the repositories that get a history line, each within the build list |
| BuildHistory.HistoryInOrder | esgf_build.py:247-254 | with every log present, line m is the entry of the repository at position Kept[m]; the positions increase strictly (build-list order), and a repository is kept iff its log has a BUILD line, so the others add nothing |
| BuildHistory.HistoryOnePerRepo | esgf_build.py:247-254 | the failure facts of HistoryFailure; when every log exists and has a BUILD line, there is exactly one line per repository and line i is repository i's entry |
| BuildHistory.HistoryExample | esgf_build.py:247-254 | a log `a` ending in "BUILD SUCCESSFUL" and a log `b` without a BUILD line give the single line "a: BUILD SUCCESSFUL" |
| BuildHistory.HistoryStops | esgf_build.py:247-250 | once a build log is missing, later repositories add nothing |
| BuildHistory.CreateBuildHistory | esgf_build.py:241-255 | the two loops write the time-stamp header and rule, then what HistoryEntries specifies |
| Release.UploadAnswer | esgf_build.py:288-296 | yes iff the line is empty or is "y" or "yes" in any case; no iff it is "n" or "no" in any case; anything else is invalid |
| Release.UploadDecision | esgf_build.py:287-297 | the decision is the answer of the first valid line, earlier lines all invalid; EOFError iff none is valid |
| Release.UploadDecisionExamples | esgf_build.py:288-296 | an empty line uploads, "NO" declines, an invalid line is skipped |
| Release.QueryForUpload | esgf_build.py:282-297 | the prompt loop returns what UploadDecision specifies |
| Release.RepoCall | esgf_build.py:316-329 | a failed latest-tag lookup is passed on unchanged; otherwise the call concerns ESGF/<repo>, the latest tag and its dist assets, with the dry-run flag; it uploads assets iff the tag is among the released tags, and a new release carries the release name and the prerelease flag |
| Release.RepoCallTargetsLatest | esgf_build.py:316-329 | each call concerns the repository's latest tag in ESGF/<repo> with its dist assets; assets are uploaded iff that tag already has a release; a new release is named `name` if given, else the tag; IndexError iff no tag has a commit |
| Release.UploadCallsFailure | esgf_build.py:312-317 | the loop fails exactly when some repository's latest-tag lookup fails, with the first such error and fewer calls than repositories; otherwise one call per repository |
| Release.UploadCallsPerRepo | esgf_build.py:312-329 | without failure, call i is the call for repository i and its latest tag, in build-list order |
| Release.UploadFailsOnUntaggedRepo | esgf_build.py:312-317 | with get_latest_tag as the lookup, the upload fails iff some repository has no tag on a commit, and then with IndexError |
| Release.NoUploadWithoutConsent | esgf_build.py:302-306 | a GitHub call is made only if the flag is true, or absent and the user said yes; a false flag does nothing |
| Release.UploadStops | esgf_build.py:312-317 | once a repository fails, later repositories make no call |
| Release.UploadOutcome | esgf_build.py:300-331 | reference for esgf_upload: the flag or the prompt decides; no upload does nothing; otherwise the per-repository calls of UploadCalls with get_latest_tag as the lookup |
| Release.EsgfUpload | esgf_build.py:300-331 | the decision and the per-repository loop do what UploadOutcome specifies |
| Selection.ParseIndexes | esgf_build.py:346 | every field parsed as an integer, in order, or ValueError naming the first field that is not one |
| Selection.LookupAll | esgf_build.py:349-352 | one registry entry per index, by Python indexing, or IndexError iff some index is out of range |
| Selection.SelectByIndexMeaning | esgf_build.py:344-352 | one entry per comma-separated field, in order with repetitions; ValueError iff some field is not an integer (before any IndexError); otherwise IndexError |
| Selection.BuildListNeverEmpty | esgf_build.py:353-355 | a successful index selection is never empty, so the exit branch is unreachable |
| Selection.BuildListExample | esgf_build.py:344-352 | "0,2" selects the first and third registry entries |
| Selection.LookupEach | esgf_build.py:349-352 | the append loop returns what LookupAll specifies |
| Selection.BuildList | esgf_build.py:334-352 | reference for create_build_list: the registry when all are wanted, else the entries named by the comma-separated indexes |
| Selection.CreateBuildList | esgf_build.py:334-359 | the whole registry when all are wanted; otherwise parse then look up in a loop, as BuildList specifies |
| Selection.SelectedReposMeaning | esgf_build.py:413-432 | the menu ends with EOFError or a result; a result other than the registry is the non-empty build list of one of the typed selections (which one: SelectedReposFirst) |
| Selection.MenuPrompts | esgf_build.py:412-419 | the positions at which the menu asks for a selection increase strictly and lie within the typed lines; an empty selection also consumes its confirmation line |
| Selection.SelectedReposFirst | esgf_build.py:413-432 | the menu ends at its first prompt that can end it (FirstAccepted over the prompts): the whole registry only after an empty selection confirmed on the next line, otherwise the build list of the first selection that yields one, every earlier prompt refused; EOFError when no prompt ends it |
| Selection.SelectedRepos | esgf_build.py:413-432 | the only exception that leaves the menu is EOFError |
| Selection.SelectRepos | esgf_build.py:407-432 | the menu loop returns what SelectedRepos specifies |
| Selection.BuildListFromArguments | esgf_build.py:473-479 | an "all" among the arguments selects the whole registry, other arguments are taken as given, none opens the menu |
| Preflight.ReportedVersion | esgf_build.py:441-442 | the second space-separated word: after the first space, space-free, followed by a space or the end; IndexError iff there is no space |
| Preflight.CheckJavaCompiler | esgf_build.py:435-444 | passes iff the reported version starts with "1.8.0"; otherwise EnvironmentError with that version, or IndexError |
| Preflight.Java8Passes | esgf_build.py:442-444 | every "javac 1.8.0_<update>" output passes |
| Preflight.LaterJavaRefused | esgf_build.py:442-444 | Java 11, 17 and 21 compilers are refused, naming the version |

## Left out

- The external commands are not modelled, only their results:
  - `git fetch --tags`, `git checkout`, `git log`
  - GitPython `pull` and `clone_from`
  - the `ant` targets
  - `javac -version`
  - `get_releases`, `gh_release_create`, `gh_asset_upload`

  The model takes their outputs, and the exit statuses of `git checkout`, the
  pulls and the ant targets, as inputs. The other calls are assumed to
  succeed: `git fetch --tags`, `git log <tag>..HEAD`, `javac -version`, the
  GitHub calls and `create_tag`.
- Tags.LatestTag: assumes that `git fetch --tags` (esgf_build.py:40) succeeds. In the script a failing fetch raises ProcessExecutionError before any tag is looked at.
- GitReports.CommitsSinceTagBlock: assumes that `git log <tag>..HEAD` (esgf_build.py:66-67) succeeds. `check_output` raises CalledProcessError when it does not.
- Preflight.CheckJavaCompiler: assumes that `javac -version` (esgf_build.py:441) runs and exits 0. The script raises ProcessExecutionError otherwise.
- Release.RepoCall: assumes that `get_releases("ESGF/<repo>")` (esgf_build.py:324) yields the tag names of the existing releases. The `github_release` package is not part of this model. If it yields release records instead, a tag name is never among them, and the script always calls `gh_release_create`.
- AntUtils.BuildRun: a repository listed twice sees, in its second iteration, only the tags that existed before the loop. In the script the first iteration's bump tag is then the latest tag, so the second bumps it again (v1.0.1, then v1.0.2); the model creates the same tag twice. The same holds for AntUtils.BuildAll. Threading the created tags through the loop would need the commit time of HEAD, which the model does not have.
- Release.UploadOutcome: a repository listed twice sees, in its second iteration, only the releases that existed before the loop. In the script the first iteration's `gh_release_create` makes the tag's release, so the second uploads assets to it; the model creates the release twice. The same holds for Release.EsgfUpload and Release.UploadCalls.
- AntUtils.BuildAll: a bump tag that already exists is not modelled. GitPython raises then; here tag creation always succeeds.
- AntUtils.BuildAll: stops before the call to `create_build_history`, which `BuildHistory.CreateBuildHistory` models on its own. The log contents are ant output, which is not modelled.
- AntUtils.RunSteps: records each log path, not the output written to the log.
- The filesystem is not modelled:
  - `os.chdir`
  - `os.makedirs`
  - opening, writing and closing the report and log files
  - the dated history file name

  Reports are returned as text or lines. Existing logs are a map from path to lines.
- `datetime.now()` is the `now` parameter of `CreateBuildHistory`.
- The rest of the script is left out:
  - `ProgressPrinter` (console output)
  - logging and the `print` messages
  - `clone_repo`, `find_path_to_repos` and `choose_directory` (directory handling)
  - the per-repository loop of `update_all` beyond the branch directive, `update_repo` and the two report blocks
- The `click` wiring of `main` is left out, apart from the folding of "all" in the repository arguments. Click's validation of the `--bump` and repository choices is not modelled.
- SemVer.Parse: stands in for the `semver` package, which is not part of this model. It reads MAJOR.MINOR.PATCH with numeric identifiers. It drops any pre-release or build suffix without validating it. The package's behaviour on malformed strings is not claimed.
- Builtins.ParseInt: Python 2's `int()` also accepts white space between the sign and the digits. The model does not.
- Strings are byte strings. `lower` and white space are ASCII only.
- Commit times are integers. Time-zone handling of `committed_datetime` is not modelled.
- Every answer loop stops with EOFError when the typed lines run out. The script's endless re-prompting is not modelled.
