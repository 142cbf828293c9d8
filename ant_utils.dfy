/** The build stage: `clean`, `pull`, `build` and `publish_local`
    (esgf_build.py:167-197), each running one ant target and writing its
    output to a log, and `build_all` (esgf_build.py:200-238), which optionally
    tags each repository with a bumped version and then runs the targets the
    repository's build script needs. */
module AntUtils {
  import opened Builtins
  import opened Tags
  import opened VersionBump

  /** The four ant wrappers. */
  datatype StepKind = Clean | Pull | Build | PublishLocal

  /** One ant call: which wrapper, with which target. */
  datatype Step = Step(kind: StepKind, target: string)

  /** What the build stage does to a repository. */
  datatype Action =
    | CreateTag(repo: string, tag: string, message: string)  // annotated tag via GitPython
    | RunAnt(repo: string, target: string, logPath: string)   // `ant <target>`, output to the log

  /** The actions performed, and the exception that stopped the run, if any. */
  datatype Run = Run(actions: seq<Action>, failure: Option<Error>)

  /** The word each wrapper puts in its log name. */
  function LogWord(kind: StepKind): string {
    match kind
    case Clean => "clean"
    case Pull => "pull"
    case Build => "build"
    case PublishLocal => "publishlocal"
  }

  /** `<log_directory>/<repo>-<word>.log`; `os.path.join` adds the same single
      '/' since the log directory never ends in one. */
  function LogPath(logDirectory: string, repo: string, kind: StepKind): string {
    logDirectory + "/" + repo + "-" + LogWord(kind) + ".log"
  }

  /** The log directory `build_all` creates under the starting directory. */
  function LogDirectory(startingDirectory: string): string {
    startingDirectory + "/buildlogs"
  }

  /** The target each wrapper runs when `build_all` gives it none. */
  function DefaultTarget(kind: StepKind): string {
    match kind
    case Clean => "clean_all"
    case Pull => "pull"
    case Build => "make_dist"
    case PublishLocal => "publish_local"
  }

  /** The dispatch table of `build_all`: esgf-getcert only cleans and builds
      "dist"; esgf-stats-api cleans and builds with the defaults; every other
      repository cleans, pulls, builds and publishes locally. */
  function BuildProfile(repo: string): (steps: seq<Step>)
    ensures |steps| == 4 <==> repo != "esgf-getcert" && repo != "esgf-stats-api"
    ensures |steps| == 2 || |steps| == 4
    ensures steps[0] == Step(Clean, if repo == "esgf-getcert" then "clean" else DefaultTarget(Clean))
    ensures repo != "esgf-getcert" ==> forall i :: 0 <= i < |steps| ==> steps[i].target == DefaultTarget(steps[i].kind)
  {
    if repo == "esgf-getcert" then [Step(Clean, "clean"), Step(Build, "dist")]
    else if repo == "esgf-stats-api" then [Step(Clean, "clean_all"), Step(Build, "make_dist")]
    else [Step(Clean, "clean_all"), Step(Pull, "pull"), Step(Build, "make_dist"), Step(PublishLocal, "publish_local")]
  }

  function Rank(kind: StepKind): nat {
    match kind
    case Clean => 0
    case Pull => 1
    case Build => 2
    case PublishLocal => 3
  }

  /** The ant target that produces a repository's distribution. */
  function BuildTarget(repo: string): string {
    if repo == "esgf-getcert" then "dist" else "make_dist"
  }

  /** Every profile cleans first, runs the wrappers in the order clean, pull,
      build, publish-local with none twice (so no two steps share a log),
      builds exactly once with its build target, and pulls and publishes
      exactly for the repositories other than esgf-getcert and esgf-stats-api. */
  lemma ProfileOrder(repo: string)
    ensures var p := BuildProfile(repo);
      |p| >= 2 && p[0].kind == Clean
      && (forall i, j :: 0 <= i < j < |p| ==> Rank(p[i].kind) < Rank(p[j].kind))
      && (exists i :: 0 <= i < |p| && p[i] == Step(Build, BuildTarget(repo)))
      && ((exists i :: 0 <= i < |p| && p[i].kind == Pull) <==> repo != "esgf-getcert" && repo != "esgf-stats-api")
      && ((exists i :: 0 <= i < |p| && p[i].kind == PublishLocal) <==> repo != "esgf-getcert" && repo != "esgf-stats-api")
  {
    var p := BuildProfile(repo);
    if repo == "esgf-getcert" || repo == "esgf-stats-api" {
      assert p[1] == Step(Build, BuildTarget(repo));
    } else {
      assert p[1].kind == Pull && p[2] == Step(Build, BuildTarget(repo)) && p[3].kind == PublishLocal;
    }
  }

  /** The steps run one after the other; an ant call that exits non-zero
      raises and stops the remaining ones. */
  function RunSteps(repo: string, logDirectory: string, steps: seq<Step>, antStatus: (string, string) -> int): (r: Run)
    ensures |r.actions| <= |steps|
    ensures forall i :: 0 <= i < |r.actions| ==>
      r.actions[i] == RunAnt(repo, steps[i].target, LogPath(logDirectory, repo, steps[i].kind))
    ensures r.failure.Some? ==>
      r.actions != [] && antStatus(repo, steps[|r.actions| - 1].target) != 0
      && r.failure == Some(CommandError(antStatus(repo, steps[|r.actions| - 1].target)))
      && forall i :: 0 <= i < |r.actions| - 1 ==> antStatus(repo, steps[i].target) == 0
  {
    if steps == [] then Run([], None)
    else
      var call := RunAnt(repo, steps[0].target, LogPath(logDirectory, repo, steps[0].kind));
      var status := antStatus(repo, steps[0].target);
      if status != 0 then Run([call], Some(CommandError(status)))
      else
        var rest := RunSteps(repo, logDirectory, steps[1..], antStatus);
        Run([call] + rest.actions, rest.failure)
  }

  /** The steps succeed exactly when every target exits with status 0, and
      then each step has made exactly its one ant call, in order. */
  lemma {:induction false} RunStepsSucceeds(repo: string, logDirectory: string, steps: seq<Step>,
                                            antStatus: (string, string) -> int)
    ensures var r := RunSteps(repo, logDirectory, steps, antStatus);
      (r.failure.None? <==> forall i :: 0 <= i < |steps| ==> antStatus(repo, steps[i].target) == 0)
      && (r.failure.None? ==>
            |r.actions| == |steps|
            && forall i :: 0 <= i < |steps| ==>
                 r.actions[i] == RunAnt(repo, steps[i].target, LogPath(logDirectory, repo, steps[i].kind)))
  {
    if steps != [] {
      RunStepsSucceeds(repo, logDirectory, steps[1..], antStatus);
    }
  }

  /** The message of the annotated tag a bump creates. */
  function TagMessage(bump: string, newTag: string): string {
    "Updated " + bump + " version to tag \"" + newTag + "\""
  }

  /** The tagging that starts an iteration of the `build_all` loop. With a
      bump, the latest tag is bumped (the selection is the bump itself, no
      answers are typed) and the new tag created; without one, nothing. */
  function BumpActions(repo: string, bump: Option<string>, tags: seq<TagRef>): Result<seq<Action>> {
    if !Truthy(bump) then Ok([])
    else
      match LatestTagName(tags)
      case Err(e) => Err(e)
      case Ok(latest) =>
        match BumpOutcome(latest, bump, [])
        case Err(e) => Err(e)
        case Ok(newTag) => Ok([CreateTag(repo, newTag, TagMessage(bump.value, newTag))])
  }

  /** One iteration of the `build_all` loop: the tagging, then the profile. */
  function RepoRun(repo: string, logDirectory: string, bump: Option<string>, tags: seq<TagRef>,
                   antStatus: (string, string) -> int): Run
  {
    match BumpActions(repo, bump, tags)
    case Err(e) => Run([], Some(e))
    case Ok(tagging) =>
      var steps := RunSteps(repo, logDirectory, BuildProfile(repo), antStatus);
      Run(tagging + steps.actions, steps.failure)
  }

  /** `RepoRun` for each repository, given each repository's tags. */
  function RepoRuns(logDirectory: string, bump: Option<string>, repoTags: string -> seq<TagRef>,
                    antStatus: (string, string) -> int): (run: string -> Run)
    ensures forall repo :: run(repo) == RepoRun(repo, logDirectory, bump, repoTags(repo), antStatus)
  {
    repo => RepoRun(repo, logDirectory, bump, repoTags(repo), antStatus)
  }

  /** `build_all` on a build list: `run` for each repository in order,
      stopping at the first exception. */
  function BuildRun(buildList: seq<string>, run: string -> Run): Run {
    if buildList == [] then Run([], None)
    else
      var before := BuildRun(buildList[..|buildList| - 1], run);
      if before.failure.Some? then before
      else
        var last := run(buildList[|buildList| - 1]);
        Run(before.actions + last.actions, last.failure)
  }

  /** A run fails exactly when some repository's iteration fails; it then
      fails with the exception of the first such repository, every repository
      before it having gone through. */
  lemma {:induction false} BuildRunFailsAtFirst(buildList: seq<string>, run: string -> Run)
    ensures var r := BuildRun(buildList, run);
      (r.failure.None? <==> forall i :: 0 <= i < |buildList| ==> run(buildList[i]).failure.None?)
      && (r.failure.Some? ==>
            exists i :: 0 <= i < |buildList| && r.failure == run(buildList[i]).failure
              && forall j :: 0 <= j < i ==> run(buildList[j]).failure.None?)
  {
    if buildList != [] {
      var p := buildList[..|buildList| - 1];
      BuildRunFailsAtFirst(p, run);
      assert forall i :: 0 <= i < |p| ==> p[i] == buildList[i];
    }
  }

  /** A repository's iteration that goes through has run its build target into its `-build.log`. */
  lemma RepoRunWritesBuildLog(repo: string, logDirectory: string, bump: Option<string>, tags: seq<TagRef>,
                              antStatus: (string, string) -> int)
    requires RepoRun(repo, logDirectory, bump, tags, antStatus).failure.None?
    ensures RunAnt(repo, BuildTarget(repo), LogPath(logDirectory, repo, Build))
              in RepoRun(repo, logDirectory, bump, tags, antStatus).actions
  {
    var steps := RunSteps(repo, logDirectory, BuildProfile(repo), antStatus);
    RunStepsSucceeds(repo, logDirectory, BuildProfile(repo), antStatus);
    ProfileOrder(repo);
    var i :| 0 <= i < |BuildProfile(repo)| && BuildProfile(repo)[i] == Step(Build, BuildTarget(repo));
    assert steps.actions[i] == RunAnt(repo, BuildTarget(repo), LogPath(logDirectory, repo, Build));
  }

  /** After a run without exception every repository of the build list has
      had its build target run into its `-build.log`. */
  lemma {:induction false} BuildRunWritesBuildLogs(buildList: seq<string>, logDirectory: string, bump: Option<string>,
                                                   repoTags: string -> seq<TagRef>, antStatus: (string, string) -> int)
    requires BuildRun(buildList, RepoRuns(logDirectory, bump, repoTags, antStatus)).failure.None?
    ensures forall repo :: repo in buildList ==>
      RunAnt(repo, BuildTarget(repo), LogPath(logDirectory, repo, Build))
        in BuildRun(buildList, RepoRuns(logDirectory, bump, repoTags, antStatus)).actions
  {
    if buildList != [] {
      var run := RepoRuns(logDirectory, bump, repoTags, antStatus);
      var p, repo := buildList[..|buildList| - 1], buildList[|buildList| - 1];
      var before, last := BuildRun(p, run), run(repo);
      assert before.failure.None? && last.failure.None?;
      assert BuildRun(buildList, run).actions == before.actions + last.actions;
      BuildRunWritesBuildLogs(p, logDirectory, bump, repoTags, antStatus);
      RepoRunWritesBuildLog(repo, logDirectory, bump, repoTags(repo), antStatus);
      forall r | r in buildList
        ensures RunAnt(r, BuildTarget(r), LogPath(logDirectory, r, Build)) in before.actions + last.actions
      {
        var i :| 0 <= i < |buildList| && buildList[i] == r;
        if i < |p| {
          assert p[i] == r;
        }
      }
    }
  }

  /** Once a repository has failed, the repositories after it change nothing. */
  lemma {:induction false} BuildRunStops(buildList: seq<string>, k: nat, run: string -> Run)
    requires k <= |buildList|
    requires BuildRun(buildList[..k], run).failure.Some?
    ensures BuildRun(buildList, run) == BuildRun(buildList[..k], run)
  {
    if k < |buildList| {
      var p := buildList[..|buildList| - 1];
      assert p[..k] == buildList[..k];
      BuildRunStops(p, k, run);
    } else {
      assert buildList[..k] == buildList;
    }
  }

  /** The body of the `build_all` loop for one repository. */
  method BuildRepo(repo: string, logDirectory: string, bump: Option<string>, tags: seq<TagRef>,
                   antStatus: (string, string) -> int)
    returns (r: Run)
    ensures r == RepoRun(repo, logDirectory, bump, tags, antStatus)
  {
    var actions: seq<Action> := [];
    if Truthy(bump) {
      var latestTag := LatestTag(tags);
      if latestTag.Err? {
        return Run([], Some(latestTag.error));
      }
      var newTag := BumpTagVersion(latestTag.value, bump, []);
      if newTag.Err? {
        return Run([], Some(newTag.error));
      }
      actions := [CreateTag(repo, newTag.value, TagMessage(bump.value, newTag.value))];
    }
    var steps := RunSteps(repo, logDirectory, BuildProfile(repo), antStatus);
    return Run(actions + steps.actions, steps.failure);
  }

  /** `build_all`: the per-repository loop. Each repository's tags and the
      exit status of each ant target are inputs. */
  method BuildAll(buildList: seq<string>, startingDirectory: string, bump: Option<string>,
                  repoTags: string -> seq<TagRef>, antStatus: (string, string) -> int)
    returns (r: Run)
    ensures r == BuildRun(buildList, RepoRuns(LogDirectory(startingDirectory), bump, repoTags, antStatus))
  {
    var logDirectory := LogDirectory(startingDirectory);
    var actions: seq<Action> := [];
    for i := 0 to |buildList|
      invariant BuildRun(buildList[..i], RepoRuns(logDirectory, bump, repoTags, antStatus)) == Run(actions, None)
    {
      var repo := buildList[i];
      assert buildList[..i + 1][..i] == buildList[..i];
      var current := BuildRepo(repo, logDirectory, bump, repoTags(repo), antStatus);
      actions := actions + current.actions;
      if current.failure.Some? {
        BuildRunStops(buildList, i + 1, RepoRuns(logDirectory, bump, repoTags, antStatus));
        return Run(actions, current.failure);
      }
    }
    assert buildList[..|buildList|] == buildList;
    return Run(actions, None);
  }
}
