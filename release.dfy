/** The release stage: `query_for_upload` (esgf_build.py:282-297) asks whether
    to upload, and `esgf_upload` (esgf_build.py:300-331) creates a GitHub
    release for each repository's latest tag, or uploads the built assets to
    the release that tag already has. */
module Release {
  import opened Builtins
  import opened Prompts
  import opened Tags

  /** How one typed line answers "upload? [Y/n]": an empty line counts as
      "yes"; y or yes in any case is yes, n or no is no, anything else is asked again. */
  function UploadAnswer(typed: string): (r: Option<bool>)
    ensures r == Some(true) <==> typed == "" || Lower(typed) == "y" || Lower(typed) == "yes"
    ensures r == Some(false) <==> Lower(typed) == "n" || Lower(typed) == "no"
  {
    var answer := if typed == "" then "yes" else typed;
    if Lower(answer) == "y" || Lower(answer) == "yes" then Some(true)
    else if Lower(answer) == "n" || Lower(answer) == "no" then Some(false)
    else None
  }

  predicate IsUploadAnswer(typed: string) {
    UploadAnswer(typed).Some?
  }

  /** The decision `query_for_upload` returns for a sequence of typed lines;
      EOFError when none of them is a valid answer. */
  function UploadDecision(answers: seq<string>): (r: Result<bool>)
    ensures r.Err? <==> forall i :: 0 <= i < |answers| ==> !IsUploadAnswer(answers[i])
    ensures r.Err? ==> r.error == EOFError
    ensures r.Ok? ==>
      exists i :: (0 <= i < |answers| && UploadAnswer(answers[i]) == Some(r.value)
        && forall j :: 0 <= j < i ==> !IsUploadAnswer(answers[j]))
  {
    match FirstAccepted(answers, IsUploadAnswer)
    case None => Err(EOFError)
    case Some(k) => Ok(UploadAnswer(answers[k]).value)
  }

  lemma UploadDecisionCons(typed: string, rest: seq<string>)
    ensures UploadDecision([typed] + rest)
            == if IsUploadAnswer(typed) then Ok(UploadAnswer(typed).value) else UploadDecision(rest)
  {
    FirstAcceptedCons(typed, rest, IsUploadAnswer);
  }

  /** The first valid line decides. */
  lemma UploadDecisionAt(answers: seq<string>, k: nat)
    requires k < |answers| && IsUploadAnswer(answers[k])
    requires forall j :: 0 <= j < k ==> !IsUploadAnswer(answers[j])
    ensures UploadDecision(answers) == Ok(UploadAnswer(answers[k]).value)
  {
    var f := FirstAccepted(answers, IsUploadAnswer);
    assert f.Some? && f.value <= k;
    assert f.value == k;
  }

  /** How single lines read: Enter is yes, "NO" is no, "maybe" is no answer, "Y" is yes. */
  lemma UploadAnswerExamples()
    ensures UploadAnswer("") == Some(true)
    ensures UploadAnswer("NO") == Some(false)
    ensures UploadAnswer("maybe") == None
    ensures UploadAnswer("Y") == Some(true)
  {
    assert Lower("yes") == "yes";
    assert Lower("NO") == "no";
    assert Lower("maybe")[0] == 'm';
    assert Lower("Y") == "y";
  }

  /** Pressing Enter at the first prompt uploads; "NO" declines; a line that
      is no answer is skipped. */
  lemma UploadDecisionExamples(rest: seq<string>)
    ensures UploadDecision([""] + rest) == Ok(true)
    ensures UploadDecision(["NO"] + rest) == Ok(false)
    ensures UploadDecision(["maybe", "Y"] + rest) == Ok(true)
  {
    UploadAnswerExamples();
    UploadDecisionCons("", rest);
    UploadDecisionCons("NO", rest);
    assert ["maybe", "Y"] + rest == ["maybe"] + (["Y"] + rest);
    UploadDecisionCons("maybe", ["Y"] + rest);
    UploadDecisionCons("Y", rest);
  }

  /** `query_for_upload`: ask until the answer is yes or no. */
  method QueryForUpload(answers: seq<string>) returns (r: Result<bool>)
    ensures r == UploadDecision(answers)
  {
    var next := 0;
    while true
      invariant 0 <= next <= |answers|
      invariant forall j :: 0 <= j < next ==> !IsUploadAnswer(answers[j])
      decreases |answers| - next
    {
      if next == |answers| {
        return Err(EOFError);
      }
      var uploadAssets := if answers[next] == "" then "yes" else answers[next];
      if Lower(uploadAssets) == "y" || Lower(uploadAssets) == "yes" {
        UploadDecisionAt(answers, next);
        return Ok(true);
      } else if Lower(uploadAssets) == "n" || Lower(uploadAssets) == "no" {
        UploadDecisionAt(answers, next);
        return Ok(false);
      }
      next := next + 1;
    }
  }

  /** The two GitHub release calls; `publish=True` is implied. */
  datatype ReleaseCall =
    | UploadAssets(slug: string, tag: string, assetPattern: string, dryRun: bool)
    | CreateRelease(slug: string, tag: string, name: string, prerelease: bool, dryRun: bool, assetPattern: string)

  /** The calls made, and the exception that stopped the upload, if any. */
  datatype Published = Published(calls: seq<ReleaseCall>, failure: Option<Error>)

  /** The release is named `name` when one is given, else after the tag. */
  function ReleaseName(name: Option<string>, latestTag: string): string {
    if Truthy(name) then name.value else latestTag
  }

  function Slug(repo: string): string {
    "ESGF/" + repo
  }

  function AssetPattern(startingDirectory: string, repo: string): string {
    startingDirectory + "/" + repo + "/dist/*"
  }

  /** The call for one repository, given what `get_latest_tag` returned for
      it and the tags that already have a release. */
  function RepoCall(repo: string, startingDirectory: string, name: Option<string>, prerelease: bool, dryRun: bool,
                    latest: Result<string>, releases: seq<string>): (r: Result<ReleaseCall>)
    ensures r.Err? <==> latest.Err?
    ensures r.Err? ==> r.error == latest.error
    ensures r.Ok? ==>
      r.value.slug == Slug(repo) && r.value.tag == latest.value && r.value.dryRun == dryRun
      && r.value.assetPattern == AssetPattern(startingDirectory, repo)
      && (r.value.UploadAssets? <==> latest.value in releases)
    ensures r.Ok? && r.value.CreateRelease? ==>
      r.value.name == ReleaseName(name, latest.value) && r.value.prerelease == prerelease
  {
    match latest
    case Err(e) => Err(e)
    case Ok(latestTag) =>
      if latestTag in releases then Ok(UploadAssets(Slug(repo), latestTag, AssetPattern(startingDirectory, repo), dryRun))
      else Ok(CreateRelease(Slug(repo), latestTag, ReleaseName(name, latestTag), prerelease, dryRun,
                            AssetPattern(startingDirectory, repo)))
  }

  /** A repository's call is about its latest tag in ESGF's organisation: the
      assets are uploaded exactly when that tag already has a release, and a
      new release is named `name` if given, else after the tag. IndexError
      when no tag points at a commit. */
  lemma RepoCallTargetsLatest(repo: string, startingDirectory: string, name: Option<string>, prerelease: bool,
                              dryRun: bool, tags: seq<TagRef>, releases: seq<string>)
    ensures var r := RepoCall(repo, startingDirectory, name, prerelease, dryRun, LatestTagName(tags), releases);
      (r.Err? <==> forall j :: 0 <= j < |tags| ==> tags[j].committed.None?)
      && (r.Err? ==> r.error == IndexError)
      && (r.Ok? ==>
            r.value.slug == "ESGF/" + repo && r.value.dryRun == dryRun
            && r.value.assetPattern == startingDirectory + "/" + repo + "/dist/*"
            && (exists k :: IsLatestTag(tags, k) && r.value.tag == tags[k].name)
            && (r.value.UploadAssets? <==> r.value.tag in releases)
            && (r.value.CreateRelease? ==>
                  r.value.prerelease == prerelease
                  && r.value.name == if Truthy(name) then name.value else r.value.tag))
  {
    LatestTagNameIsLatest(tags);
  }

  /** The loop of `esgf_upload` over the build list, stopping at the first
      exception; `latest` is `get_latest_tag` for each repository. */
  function UploadCalls(buildList: seq<string>, startingDirectory: string, name: Option<string>, prerelease: bool,
                       dryRun: bool, latest: string -> Result<string>, releases: string -> seq<string>): Published
  {
    if buildList == [] then Published([], None)
    else
      var before := UploadCalls(buildList[..|buildList| - 1], startingDirectory, name, prerelease, dryRun,
                                latest, releases);
      var repo := buildList[|buildList| - 1];
      if before.failure.Some? then before
      else
        match RepoCall(repo, startingDirectory, name, prerelease, dryRun, latest(repo), releases(Slug(repo)))
        case Err(e) => Published(before.calls, Some(e))
        case Ok(call) => Published(before.calls + [call], None)
  }

  /** The loop stops exactly at the first repository whose latest tag cannot
      be found, with that error; otherwise it makes one call per repository. */
  lemma {:induction false} UploadCallsFailure(buildList: seq<string>, startingDirectory: string, name: Option<string>,
                                              prerelease: bool, dryRun: bool, latest: string -> Result<string>,
                                              releases: string -> seq<string>)
    ensures var u := UploadCalls(buildList, startingDirectory, name, prerelease, dryRun, latest, releases);
      (u.failure.None? <==> forall i :: 0 <= i < |buildList| ==> latest(buildList[i]).Ok?)
      && (u.failure.Some? ==>
            |u.calls| < |buildList|
            && exists i :: (0 <= i < |buildList| && latest(buildList[i]).Err?
                           && u.failure == Some(latest(buildList[i]).error)
                           && forall j :: 0 <= j < i ==> latest(buildList[j]).Ok?))
      && (u.failure.None? ==> |u.calls| == |buildList|)
  {
    if buildList != [] {
      var p, repo := buildList[..|buildList| - 1], buildList[|buildList| - 1];
      UploadCallsFailure(p, startingDirectory, name, prerelease, dryRun, latest, releases);
      assert forall i :: 0 <= i < |p| ==> p[i] == buildList[i];
    }
  }

  /** One call per repository, in build-list order, each the call for that
      repository, unless some repository's latest tag cannot be found. */
  lemma {:induction false} UploadCallsPerRepo(buildList: seq<string>, startingDirectory: string, name: Option<string>,
                                              prerelease: bool, dryRun: bool, latest: string -> Result<string>,
                                              releases: string -> seq<string>)
    ensures var u := UploadCalls(buildList, startingDirectory, name, prerelease, dryRun, latest, releases);
      u.failure.None? ==>
        |u.calls| == |buildList|
        && forall i :: 0 <= i < |buildList| ==>
             Ok(u.calls[i]) == RepoCall(buildList[i], startingDirectory, name, prerelease, dryRun,
                                        latest(buildList[i]), releases(Slug(buildList[i])))
  {
    UploadCallsFailure(buildList, startingDirectory, name, prerelease, dryRun, latest, releases);
    if buildList != [] {
      var p, repo := buildList[..|buildList| - 1], buildList[|buildList| - 1];
      UploadCallsPerRepo(p, startingDirectory, name, prerelease, dryRun, latest, releases);
      assert forall i :: 0 <= i < |p| ==> p[i] == buildList[i];
    }
  }

  /** With `get_latest_tag` as the lookup, an upload stops only with IndexError,
      and exactly when some repository has no tag that points at a commit. */
  lemma UploadFailsOnUntaggedRepo(buildList: seq<string>, startingDirectory: string, name: Option<string>,
                                  prerelease: bool, dryRun: bool, repoTags: string -> seq<TagRef>,
                                  releases: string -> seq<string>)
    ensures var u := UploadCalls(buildList, startingDirectory, name, prerelease, dryRun, LatestTags(repoTags), releases);
      (u.failure.Some? <==> exists i :: 0 <= i < |buildList| && Untagged(repoTags(buildList[i])))
      && (u.failure.Some? ==> u.failure == Some(IndexError))
  {
    var latest := LatestTags(repoTags);
    var u := UploadCalls(buildList, startingDirectory, name, prerelease, dryRun, latest, releases);
    UploadCallsFailure(buildList, startingDirectory, name, prerelease, dryRun, latest, releases);
    if u.failure.Some? {
      var i :| 0 <= i < |buildList| && latest(buildList[i]).Err? && u.failure == Some(latest(buildList[i]).error);
      LatestTagNameFails(repoTags(buildList[i]));
    } else {
      forall i | 0 <= i < |buildList| ensures !Untagged(repoTags(buildList[i])) {
        assert latest(buildList[i]).Ok?;
        LatestTagNameFails(repoTags(buildList[i]));
      }
    }
  }

  /** What `esgf_upload` does. No flag asks the user; a false decision does nothing. */
  function UploadOutcome(startingDirectory: string, buildList: seq<string>, name: Option<string>,
                         uploadFlag: Option<bool>, prerelease: bool, dryRun: bool, answers: seq<string>,
                         repoTags: string -> seq<TagRef>, releases: string -> seq<string>): Published
  {
    var decision := if uploadFlag.Some? then Ok(uploadFlag.value) else UploadDecision(answers);
    match decision
    case Err(e) => Published([], Some(e))
    case Ok(upload) =>
      if !upload then Published([], None)
      else UploadCalls(buildList, startingDirectory, name, prerelease, dryRun, LatestTags(repoTags), releases)
  }

  /** Nothing reaches GitHub without consent: a call is made only when the
      flag is true, or is absent and the user answered yes. */
  lemma NoUploadWithoutConsent(startingDirectory: string, buildList: seq<string>, name: Option<string>,
                               uploadFlag: Option<bool>, prerelease: bool, dryRun: bool, answers: seq<string>,
                               repoTags: string -> seq<TagRef>, releases: string -> seq<string>)
    ensures UploadOutcome(startingDirectory, buildList, name, uploadFlag, prerelease, dryRun, answers,
                          repoTags, releases).calls != []
            ==> uploadFlag == Some(true) || (uploadFlag.None? && UploadDecision(answers) == Ok(true))
    ensures uploadFlag == Some(false) ==>
      UploadOutcome(startingDirectory, buildList, name, uploadFlag, prerelease, dryRun, answers,
                    repoTags, releases) == Published([], None)
  {
  }

  /** `esgf_upload`. Each repository's tags, and the tags each GitHub
      repository already has a release for, are inputs. */
  method EsgfUpload(startingDirectory: string, buildList: seq<string>, name: Option<string>,
                    uploadFlag: Option<bool>, prerelease: bool, dryRun: bool, answers: seq<string>,
                    repoTags: string -> seq<TagRef>, releases: string -> seq<string>)
    returns (r: Published)
    ensures r == UploadOutcome(startingDirectory, buildList, name, uploadFlag, prerelease, dryRun, answers,
                               repoTags, releases)
  {
    var upload: bool;
    if uploadFlag.None? {
      var decision := QueryForUpload(answers);
      if decision.Err? {
        return Published([], Some(decision.error));
      }
      upload := decision.value;
    } else {
      upload := uploadFlag.value;
    }
    if !upload {
      return Published([], None);
    }
    var calls: seq<ReleaseCall> := [];
    for i := 0 to |buildList|
      invariant UploadCalls(buildList[..i], startingDirectory, name, prerelease, dryRun, LatestTags(repoTags), releases)
                == Published(calls, None)
    {
      assert buildList[..i + 1][..i] == buildList[..i];
      var repo := buildList[i];
      var latestTag := LatestTag(repoTags(repo));
      if latestTag.Err? {
        UploadStops(buildList, i + 1, startingDirectory, name, prerelease, dryRun, LatestTags(repoTags), releases);
        return Published(calls, Some(latestTag.error));
      }
      var releaseName := if !Truthy(name) then latestTag.value else name.value;
      if latestTag.value in releases(Slug(repo)) {
        calls := calls + [UploadAssets(Slug(repo), latestTag.value, AssetPattern(startingDirectory, repo), dryRun)];
      } else {
        calls := calls + [CreateRelease(Slug(repo), latestTag.value, releaseName, prerelease, dryRun,
                                        AssetPattern(startingDirectory, repo))];
      }
    }
    assert buildList[..|buildList|] == buildList;
    return Published(calls, None);
  }

  /** Once a repository has failed, the repositories after it change nothing. */
  lemma {:induction false} UploadStops(buildList: seq<string>, k: nat, startingDirectory: string, name: Option<string>,
                                       prerelease: bool, dryRun: bool, latest: string -> Result<string>,
                                       releases: string -> seq<string>)
    requires k <= |buildList|
    requires UploadCalls(buildList[..k], startingDirectory, name, prerelease, dryRun, latest, releases).failure.Some?
    ensures UploadCalls(buildList, startingDirectory, name, prerelease, dryRun, latest, releases)
            == UploadCalls(buildList[..k], startingDirectory, name, prerelease, dryRun, latest, releases)
  {
    if k < |buildList| {
      var p := buildList[..|buildList| - 1];
      assert p[..k] == buildList[..k];
      UploadStops(p, k, startingDirectory, name, prerelease, dryRun, latest, releases);
    } else {
      assert buildList[..k] == buildList;
    }
  }
}
