/** Which repositories a run covers: `create_build_list` (esgf_build.py:334-359),
    the menu loop `select_repos` (esgf_build.py:407-432) and the command-line
    arguments in `main` (esgf_build.py:473-479). The registry of repository
    names is an input. */
module Selection {
  import opened Builtins
  import opened Prompts

  /** `map(int, fields)`: every field as an integer, or ValueError for the
      first field that is not one (Python 2's `map` is eager, so this happens
      before any lookup). */
  function ParseIndexes(fields: seq<string>): (r: Result<seq<int>>)
    ensures r.Ok? <==> forall i :: 0 <= i < |fields| ==> ParseInt(fields[i]).Some?
    ensures r.Ok? ==> |r.value| == |fields| && forall i :: 0 <= i < |fields| ==> ParseInt(fields[i]) == Some(r.value[i])
    ensures r.Err? ==>
      exists i :: (0 <= i < |fields| && ParseInt(fields[i]).None? && r.error == ValueError(fields[i])
        && forall j :: 0 <= j < i ==> ParseInt(fields[j]).Some?)
  {
    match FirstAccepted(fields, f => ParseInt(f).None?)
    case Some(k) => Err(ValueError(fields[k]))
    case None => Ok(seq(|fields|, i requires 0 <= i < |fields| => ParseInt(fields[i]).value))
  }

  /** The registry entries at the given indexes, counting from the end for a
      negative index; IndexError as soon as one is out of range. */
  function LookupAll(registry: seq<string>, indexes: seq<int>): (r: Result<seq<string>>)
    ensures r.Ok? <==> forall i :: 0 <= i < |indexes| ==> -|registry| <= indexes[i] < |registry|
    ensures r.Err? ==> r.error == IndexError
    ensures r.Ok? ==> |r.value| == |indexes| && forall i :: 0 <= i < |indexes| ==> PyIndex(registry, indexes[i]) == Ok(r.value[i])
  {
    if indexes == [] then Ok([])
    else
      var last := indexes[|indexes| - 1];
      match LookupAll(registry, indexes[..|indexes| - 1])
      case Err(e) => Err(e)
      case Ok(before) =>
        match PyIndex(registry, last)
        case Err(e) => Err(e)
        case Ok(name) => Ok(before + [name])
  }

  /** The registry entries named by fields holding indexes. */
  function SelectByIndex(fields: seq<string>, registry: seq<string>): Result<seq<string>> {
    match ParseIndexes(fields)
    case Err(e) => Err(e)
    case Ok(indexes) => LookupAll(registry, indexes)
  }

  lemma LookupAllSnoc(registry: seq<string>, indexes: seq<int>, i: nat)
    requires i < |indexes| && LookupAll(registry, indexes[..i]).Ok? && PyIndex(registry, indexes[i]).Ok?
    ensures LookupAll(registry, indexes[..i + 1])
            == Ok(LookupAll(registry, indexes[..i]).value + [PyIndex(registry, indexes[i]).value])
  {
    assert indexes[..i + 1][..i] == indexes[..i];
  }

  lemma LookupAllFails(registry: seq<string>, indexes: seq<int>, i: nat)
    requires i < |indexes| && PyIndex(registry, indexes[i]).Err?
    ensures LookupAll(registry, indexes) == Err(IndexError)
  {
  }

  /** What `create_build_list` returns: the whole registry when all
      repositories are wanted, else the entries named by the comma-separated
      indexes. */
  function BuildList(selectRepo: string, allReposOpt: bool, registry: seq<string>): Result<seq<string>> {
    if allReposOpt then Ok(registry) else SelectByIndex(SplitOn(selectRepo, ','), registry)
  }

  /** One registry entry per field, in the order given and with repetitions
      kept; a field that is not an integer raises ValueError, which takes
      precedence over an index out of range, which raises IndexError. */
  lemma SelectByIndexMeaning(fields: seq<string>, registry: seq<string>)
    ensures SelectByIndex(fields, registry).Ok? <==>
      forall i :: 0 <= i < |fields| ==>
        ParseInt(fields[i]).Some? && -|registry| <= ParseInt(fields[i]).value < |registry|
    ensures SelectByIndex(fields, registry).Ok? ==>
      |SelectByIndex(fields, registry).value| == |fields|
      && forall i :: 0 <= i < |fields| ==>
           PyIndex(registry, ParseInt(fields[i]).value) == Ok(SelectByIndex(fields, registry).value[i])
    ensures SelectByIndex(fields, registry).Err? ==>
      (SelectByIndex(fields, registry).error.ValueError? <==> exists i :: 0 <= i < |fields| && ParseInt(fields[i]).None?)
      && (!SelectByIndex(fields, registry).error.ValueError? ==> SelectByIndex(fields, registry).error == IndexError)
  {
    var parsed := ParseIndexes(fields);
    if parsed.Ok? {
      var indexes := parsed.value;
      if LookupAll(registry, indexes).Ok? {
        forall i | 0 <= i < |fields|
          ensures ParseInt(fields[i]).Some? && -|registry| <= ParseInt(fields[i]).value < |registry|
        {
          assert ParseInt(fields[i]) == Some(indexes[i]);
        }
      } else {
        var i :| 0 <= i < |indexes| && !(-|registry| <= indexes[i] < |registry|);
        assert ParseInt(fields[i]) == Some(indexes[i]);
      }
    } else {
      var i :| 0 <= i < |fields| && ParseInt(fields[i]).None? && parsed.error == ValueError(fields[i]);
    }
  }

  /** A successful index selection is never empty, since splitting gives at
      least one field: the "No applicable repos selected" exit is unreachable. */
  lemma BuildListNeverEmpty(selectRepo: string, registry: seq<string>)
    requires BuildList(selectRepo, false, registry).Ok?
    ensures BuildList(selectRepo, false, registry).value != []
  {
    SelectByIndexMeaning(SplitOn(selectRepo, ','), registry);
  }

  lemma SplitExample()
    ensures SplitOn("0,2", ',') == ["0", "2"]
  {
    var fields := ["0", "2"];
    assert fields[1..] == ["2"];
    assert Join(fields, ',') == "0,2";
    SplitJoin(fields, ',');
  }

  lemma ParseExample()
    ensures ParseInt("0") == Some(0) && ParseInt("2") == Some(2)
  {
    ParseIntRoundTrip(0);
    ParseIntRoundTrip(2);
    assert IntToString(0) == "0" && IntToString(2) == "2";
  }

  /** Indexes "0,2" pick the first and the third repository of the registry. */
  lemma BuildListExample(registry: seq<string>)
    requires |registry| >= 3
    ensures BuildList("0,2", false, registry) == Ok([registry[0], registry[2]])
  {
    SplitExample();
    ParseExample();
    var fields := ["0", "2"];
    SelectByIndexMeaning(fields, registry);
    assert ParseInt(fields[0]) == Some(0) && ParseInt(fields[1]) == Some(2);
    var r := SelectByIndex(fields, registry);
    assert r.Ok?;
    assert PyIndex(registry, 0) == Ok(r.value[0]);
    assert PyIndex(registry, 2) == Ok(r.value[1]);
    assert r.value == [registry[0], registry[2]];
  }

  /** The loop of `create_build_list` that appends the registry entry of
      each index, stopping with IndexError at the first out of range. */
  method LookupEach(registry: seq<string>, indexes: seq<int>) returns (r: Result<seq<string>>)
    ensures r == LookupAll(registry, indexes)
  {
    var buildList: seq<string> := [];
    for i := 0 to |indexes|
      invariant LookupAll(registry, indexes[..i]) == Ok(buildList)
    {
      var repoName := PyIndex(registry, indexes[i]);
      if repoName.Err? {
        LookupAllFails(registry, indexes, i);
        return Err(IndexError);
      }
      LookupAllSnoc(registry, indexes, i);
      buildList := buildList + [repoName.value];
    }
    assert indexes[..|indexes|] == indexes;
    return Ok(buildList);
  }

  /** `create_build_list`: the whole registry, or parse all the indexes and
      then look each up. */
  method CreateBuildList(selectRepo: string, allReposOpt: bool, registry: seq<string>) returns (r: Result<seq<string>>)
    ensures r == BuildList(selectRepo, allReposOpt, registry)
  {
    if allReposOpt {
      return Ok(registry);
    }
    var selectRepoList := SplitOn(selectRepo, ',');
    var selectRepoMap := ParseIndexes(selectRepoList);
    if selectRepoMap.Err? {
      return Err(selectRepoMap.error);
    }
    r := LookupEach(registry, selectRepoMap.value);
  }

  /** The confirmations `select_repos` takes for "build all": yes, y or an empty line, in any case. */
  predicate ConfirmsAll(typed: string) {
    Lower(typed) == "yes" || Lower(typed) == "y" || Lower(typed) == ""
  }

  /** What `select_repos` returns for a sequence of typed lines. An empty
      selection asks for confirmation and builds all repositories on yes,
      else starts over; any other selection is retried while it raises
      ValueError or IndexError. EOFError when the lines run out. */
  function SelectedRepos(answers: seq<string>, registry: seq<string>): (r: Result<seq<string>>)
    ensures r.Err? ==> r.error == EOFError
    decreases |answers|
  {
    if answers == [] then Err(EOFError)
    else if answers[0] == "" then
      if |answers| == 1 then Err(EOFError)
      else if ConfirmsAll(answers[1]) then Ok(registry)
      else SelectedRepos(answers[2..], registry)
    else
      match BuildList(answers[0], false, registry)
      case Ok(buildList) => Ok(buildList)
      case Err(_) => SelectedRepos(answers[1..], registry)
  }

  /** The menu never lets a selection error escape: it ends with the whole
      registry, or with the (never empty) build list of one of the typed
      selections, or with EOFError. */
  lemma {:induction false} SelectedReposMeaning(answers: seq<string>, registry: seq<string>)
    ensures SelectedRepos(answers, registry).Err? ==> SelectedRepos(answers, registry).error == EOFError
    ensures SelectedRepos(answers, registry).Ok? && SelectedRepos(answers, registry).value != registry ==>
      SelectedRepos(answers, registry).value != []
      && exists i :: 0 <= i < |answers| && BuildList(answers[i], false, registry) == SelectedRepos(answers, registry)
    decreases |answers|
  {
    if answers == [] || (answers[0] == "" && (|answers| == 1 || ConfirmsAll(answers[1]))) {
    } else if answers[0] == "" {
      var rest := answers[2..];
      assert SelectedRepos(answers, registry) == SelectedRepos(rest, registry);
      SelectedReposMeaning(rest, registry);
      if SelectedRepos(rest, registry).Ok? && SelectedRepos(rest, registry).value != registry {
        var i :| 0 <= i < |rest| && BuildList(rest[i], false, registry) == SelectedRepos(rest, registry);
        assert answers[i + 2] == rest[i];
      }
    } else if BuildList(answers[0], false, registry).Ok? {
      BuildListNeverEmpty(answers[0], registry);
    } else {
      var rest := answers[1..];
      assert SelectedRepos(answers, registry) == SelectedRepos(rest, registry);
      SelectedReposMeaning(rest, registry);
      if SelectedRepos(rest, registry).Ok? && SelectedRepos(rest, registry).value != registry {
        var i :| 0 <= i < |rest| && BuildList(rest[i], false, registry) == SelectedRepos(rest, registry);
        assert answers[i + 1] == rest[i];
      }
    }
  }

  /** The positions, from `from` on, at which the menu asks for a selection.
      An empty selection also consumes the next line, its confirmation. */
  function MenuPrompts(answers: seq<string>, from: nat): (ps: seq<nat>)
    ensures forall m :: 0 <= m < |ps| ==> from <= ps[m] < |answers|
    ensures forall m, n :: 0 <= m < n < |ps| ==> ps[m] < ps[n]
    decreases |answers| - from
  {
    if from >= |answers| then []
    else [from] + MenuPrompts(answers, if answers[from] == "" then from + 2 else from + 1)
  }

  /** The menu ends at the prompt at `i`: an empty selection confirmed on the
      next line, or a selection whose build list is found. */
  predicate MenuEnds(answers: seq<string>, registry: seq<string>, i: nat)
    requires i < |answers|
  {
    if answers[i] == "" then i + 1 < |answers| && ConfirmsAll(answers[i + 1])
    else BuildList(answers[i], false, registry).Ok?
  }

  /** What the menu returns when it ends at the prompt at `i`. */
  function MenuResult(answers: seq<string>, registry: seq<string>, i: nat): seq<string>
    requires i < |answers| && MenuEnds(answers, registry, i)
  {
    if answers[i] == "" then registry else BuildList(answers[i], false, registry).value
  }

  /** `MenuEnds` as a test on positions, for `FirstAccepted`. */
  function MenuEndsAt(answers: seq<string>, registry: seq<string>): (ends: nat -> bool)
    ensures forall i: nat :: ends(i) == (i < |answers| && MenuEnds(answers, registry, i))
  {
    (i: nat) => i < |answers| && MenuEnds(answers, registry, i)
  }

  /** The menu's outcome over the prompts `ps`: it ends at the first prompt
      where it can, with that prompt's result; EOFError when none ends it. */
  function MenuOutcome(answers: seq<string>, registry: seq<string>, ps: seq<nat>): Result<seq<string>>
    requires forall m :: 0 <= m < |ps| ==> ps[m] < |answers|
  {
    match FirstAccepted(ps, MenuEndsAt(answers, registry))
    case None => Err(EOFError)
    case Some(m) => Ok(MenuResult(answers, registry, ps[m]))
  }

  /** `select_repos` ends at its first prompt that can end it: the whole
      registry after an empty selection confirmed on the next line, or the
      build list of the first selection that yields one, every earlier prompt
      having been refused; EOFError when no prompt ends it. */
  lemma SelectedReposFirst(answers: seq<string>, registry: seq<string>)
    ensures SelectedRepos(answers, registry) == MenuOutcome(answers, registry, MenuPrompts(answers, 0))
  {
    MenuFrom(answers, registry, 0);
    assert answers[0..] == answers;
  }

  /** `SelectedReposFirst` for the lines from `from` on. */
  lemma {:induction false} MenuFrom(answers: seq<string>, registry: seq<string>, from: nat)
    requires from <= |answers|
    ensures SelectedRepos(answers[from..], registry) == MenuOutcome(answers, registry, MenuPrompts(answers, from))
    decreases |answers| - from
  {
    if from < |answers| {
      var a := answers[from..];
      var next := if answers[from] == "" then from + 2 else from + 1;
      var ps, qs := MenuPrompts(answers, from), MenuPrompts(answers, next);
      var ends := MenuEndsAt(answers, registry);
      assert ps == [from] + qs;
      FirstAcceptedCons(from, qs, ends);
      if MenuEnds(answers, registry, from) {
        if answers[from] == "" {
          assert a[1] == answers[from + 1];
        }
      } else if next >= |answers| {
        assert qs == [];
      } else {
        if answers[from] == "" {
          assert a[2..] == answers[next..];
        } else {
          assert a[1..] == answers[next..];
        }
        assert SelectedRepos(a, registry) == SelectedRepos(answers[next..], registry);
        MenuFrom(answers, registry, next);
        match FirstAccepted(qs, ends)
        case None =>
        case Some(k) => assert ps[k + 1] == qs[k];
      }
    }
  }

  /** `select_repos`: the menu loop. */
  method SelectRepos(answers: seq<string>, registry: seq<string>) returns (r: Result<seq<string>>)
    ensures r == SelectedRepos(answers, registry)
  {
    var next := 0;
    while true
      invariant 0 <= next <= |answers|
      invariant SelectedRepos(answers[next..], registry) == SelectedRepos(answers, registry)
      decreases |answers| - next
    {
      if next == |answers| {
        return Err(EOFError);
      }
      var rest := answers[next..];
      var selectRepo := answers[next];
      next := next + 1;
      if selectRepo == "" {
        if next == |answers| {
          return Err(EOFError);
        }
        var allRepoQ := answers[next];
        next := next + 1;
        if !ConfirmsAll(allRepoQ) {
          assert answers[next..] == rest[2..];
          continue;
        }
        r := CreateBuildList(selectRepo, true, registry);
        return;
      }
      r := CreateBuildList(selectRepo, false, registry);
      if r.Ok? {
        return;
      }
      assert answers[next..] == rest[1..];
    }
  }

  /** The build list of `main`: repository arguments, where an "all" among
      them stands for the whole registry, or else the menu. */
  method BuildListFromArguments(repos: seq<string>, answers: seq<string>, registry: seq<string>)
    returns (r: Result<seq<string>>)
    ensures repos != [] && "all" in repos ==> r == Ok(registry)
    ensures repos != [] && "all" !in repos ==> r == Ok(repos)
    ensures repos == [] ==> r == SelectedRepos(answers, registry)
  {
    if |repos| > 0 {
      if "all" in repos {
        r := Ok(registry);
      } else {
        r := Ok(repos);
      }
    } else {
      r := SelectRepos(answers, registry);
    }
  }
}
