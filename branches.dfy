/** Choosing what each repository is synchronised to: `list_branches`
    (esgf_build.py:107-109), `choose_branch` (esgf_build.py:379-392), the
    branch directive in `update_all` (esgf_build.py:130-137) and the git calls
    of `update_repo` (esgf_build.py:78-95). */
module Branches {
  import opened Builtins
  import opened Prompts
  import opened Tags

  /** A local branch of a repository, as GitPython lists it; the script only reads its name. */
  datatype BranchHead = BranchHead(name: string)

  /** `list_branches`: one name per local branch, in the listed order. */
  function BranchNames(heads: seq<BranchHead>): (names: seq<string>)
    ensures |names| == |heads|
    ensures forall i :: 0 <= i < |heads| ==> names[i] == heads[i].name
    ensures forall n :: n in names <==> exists i :: 0 <= i < |heads| && heads[i].name == n
  {
    seq(|heads|, i requires 0 <= i < |heads| => heads[i].name)
  }

  /** The answers `choose_branch` accepts: once lower-cased, a branch name or "latest". */
  predicate IsBranchAnswer(branches: seq<string>, answer: string) {
    Lower(answer) in branches || Lower(answer) == "latest"
  }

  /** What `choose_branch` returns for a sequence of typed lines: the first
      accepted line as it was typed, not lower-cased; EOFError if none is. */
  function ChosenBranch(branches: seq<string>, answers: seq<string>): (r: Result<string>)
    ensures r.Err? <==> forall i :: 0 <= i < |answers| ==> !IsBranchAnswer(branches, answers[i])
    ensures r.Err? ==> r.error == EOFError
    ensures r.Ok? ==>
      exists i :: (0 <= i < |answers| && r.value == answers[i]
        && IsBranchAnswer(branches, answers[i])
        && forall j :: 0 <= j < i ==> !IsBranchAnswer(branches, answers[j]))
  {
    match FirstAccepted(answers, a => IsBranchAnswer(branches, a))
    case None => Err(EOFError)
    case Some(k) => Ok(answers[k])
  }

  /** `choose_branch`: prompt until a line names a branch or "latest". */
  method ChooseBranch(heads: seq<BranchHead>, answers: seq<string>) returns (r: Result<string>)
    ensures r == ChosenBranch(BranchNames(heads), answers)
  {
    var branches := BranchNames(heads);
    var next := 0;
    while true
      invariant 0 <= next <= |answers|
      invariant forall j :: 0 <= j < next ==> !IsBranchAnswer(branches, answers[j])
      decreases |answers| - next
    {
      if next == |answers| {
        return Err(EOFError);
      }
      var activeBranch := answers[next];
      next := next + 1;
      if Lower(activeBranch) !in branches && Lower(activeBranch) != "latest" {
        continue;
      }
      return Ok(activeBranch);
    }
  }

  /** The branch `update_all` makes active for one repository. A missing or
      empty directive defers to `choose_branch`; "latest" passes through; any
      other directive must name a local branch, else ValueError. */
  function ResolveBranch(repo: string, branch: Option<string>, heads: seq<BranchHead>, answers: seq<string>)
    : (r: Result<string>)
    ensures !Truthy(branch) ==> r == ChosenBranch(BranchNames(heads), answers)
    ensures Truthy(branch) && branch.value == "latest" ==> r == Ok("latest")
    ensures Truthy(branch) && branch.value != "latest" ==>
      (r.Ok? <==> exists i :: 0 <= i < |heads| && heads[i].name == branch.value)
      && (r.Ok? ==> r.value == branch.value)
      && (r.Err? ==> r.error == ValueError(branch.value + " branch was not found for " + repo + " repo"))
  {
    if !Truthy(branch) then ChosenBranch(BranchNames(heads), answers)
    else if branch.value == "latest" then Ok("latest")
    else if branch.value !in BranchNames(heads) then
      Err(ValueError(branch.value + " branch was not found for " + repo + " repo"))
    else Ok(branch.value)
  }

  /** A resolved branch is "latest" or names a local branch, except that an
      interactive answer only has to match once lower-cased. */
  lemma ResolvedBranchExists(repo: string, branch: Option<string>, heads: seq<BranchHead>, answers: seq<string>)
    requires ResolveBranch(repo, branch, heads, answers).Ok?
    ensures var active := ResolveBranch(repo, branch, heads, answers).value;
      if Truthy(branch) then active == "latest" || active in BranchNames(heads)
      else Lower(active) == "latest" || Lower(active) in BranchNames(heads)
  {
    if !Truthy(branch) {
      var names := BranchNames(heads);
      var i :| 0 <= i < |answers| && ChosenBranch(names, answers).value == answers[i]
        && IsBranchAnswer(names, answers[i]);
    }
  }

  /** The git operations `update_repo` performs. */
  datatype GitCall =
    | CheckoutNewBranch(tag: string)  // git checkout <tag> -b <tag>
    | Checkout(branch: string)        // git checkout <branch>
    | PullFromOrigin(refspec: string) // pull "<branch>:<branch>" from origin

  /** `update_repo` for the active branch. For "latest" the latest tag is
      checked out as a branch of the same name; the exit status of that
      checkout is caught and dropped, so it never fails the run (only an
      IndexError from a repository without commit tags does). A literal branch
      is checked out and pulled, and a failure of either propagates. */
  function UpdateRepo(activeBranch: string, tags: seq<TagRef>, checkoutStatus: int, pullStatus: int)
    : (r: Result<seq<GitCall>>)
    ensures activeBranch == "latest" ==>
      match LatestTagName(tags)
      case Err(e) => r == Err(e)
      case Ok(tag) => r == Ok([CheckoutNewBranch(tag)])
    ensures activeBranch != "latest" ==>
      (r.Ok? <==> checkoutStatus == 0 && pullStatus == 0)
      && (r.Ok? ==> r.value == [Checkout(activeBranch), PullFromOrigin(activeBranch + ":" + activeBranch)])
    ensures activeBranch != "latest" && checkoutStatus != 0 ==> r == Err(CommandError(checkoutStatus))
    ensures activeBranch != "latest" && checkoutStatus == 0 && pullStatus != 0 ==> r == Err(CommandError(pullStatus))
  {
    if activeBranch == "latest" then
      match LatestTagName(tags)
      case Err(e) => Err(e)
      case Ok(tag) => Ok([CheckoutNewBranch(tag)])
    else if checkoutStatus != 0 then Err(CommandError(checkoutStatus))
    else if pullStatus != 0 then Err(CommandError(pullStatus))
    else Ok([Checkout(activeBranch), PullFromOrigin(activeBranch + ":" + activeBranch)])
  }

  /** Checking out the latest tag succeeds whatever the checkout's exit status,
      in particular when the branch already exists (status 128). */
  lemma LatestCheckoutIgnoresStatus(tags: seq<TagRef>, status1: int, status2: int, pull1: int, pull2: int)
    ensures UpdateRepo("latest", tags, status1, pull1) == UpdateRepo("latest", tags, status2, pull2)
    ensures UpdateRepo("latest", tags, status1, pull1).Ok? <==> exists j :: 0 <= j < |tags| && tags[j].committed.Some?
  {
    LatestTagNameIsLatest(tags);
  }
}
